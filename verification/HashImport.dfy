/** Importing known files into a hash database (myapp/blueprints/api.py). */
module HashImport {
  import opened Options

  type ProductId = nat

  /** Python's str.lower and str.strip, whatever they do to a string. */
  datatype Text = Text(lower: string -> string, strip: string -> string)

  /** The dedup key of a known file. */
  datatype Identity = Identity(filename: string, md5: Option<string>, sha1: Option<string>, sha256: Option<string>,
                               relativePath: Option<string>)

  datatype KnownFile = KnownFile(product: ProductId, identity: Identity)

  /** A file and a product of the payload; any of it may be missing. */
  datatype FileEntry = FileEntry(filename: Option<string>, md5: Option<string>, sha1: Option<string>,
                                 sha256: Option<string>, relativePath: Option<string>)

  datatype ProductEntry = ProductEntry(title: Option<string>, files: seq<FileEntry>)

  /** Product titles by id, and the rows of known_files, in row order. */
  datatype Database = Database(products: seq<string>, files: seq<KnownFile>)

  function Normal(text: Text, hash: Option<string>): Option<string> {
    if hash.None? || text.lower(hash.value) == "" then None else Some(text.lower(hash.value))
  }

  /** _build_known_file and _known_file_identity */
  function Build(text: Text, f: FileEntry): Option<Identity> {
    if f.filename.None? || f.filename.value == "" then None
    else Some(Identity(f.filename.value, Normal(text, f.md5), Normal(text, f.sha1), Normal(text, f.sha256),
                       f.relativePath))
  }

  function Title(text: Text, p: ProductEntry): string {
    if p.title.None? then text.strip("") else text.strip(p.title.value)
  }

  /** The product that goes by a title: the last row wins. */
  function Resolve(products: seq<string>, title: string): (pid: Option<ProductId>)
    ensures pid.Some? ==> pid.value < |products| && products[pid.value] == title
    ensures pid.None? <==> title !in products
  {
    if products == [] then None
    else if products[|products| - 1] == title then Some(|products| - 1)
    else Resolve(products[..|products| - 1], title)
  }

  function Identities(files: seq<KnownFile>, pid: ProductId): set<Identity> {
    set f <- files | f.product == pid :: f.identity
  }

  // ---- The import, as a function of the rows ----

  function AddFile(text: Text, files: seq<KnownFile>, pid: ProductId, f: FileEntry): seq<KnownFile> {
    var identity := Build(text, f);
    if identity.None? || identity.value in Identities(files, pid) then files
    else files + [KnownFile(pid, identity.value)]
  }

  function AddFiles(text: Text, files: seq<KnownFile>, pid: ProductId, entries: seq<FileEntry>, n: nat): seq<KnownFile>
    requires n <= |entries|
  {
    if n == 0 then files else AddFile(text, AddFiles(text, files, pid, entries, n - 1), pid, entries[n - 1])
  }

  function AddTitle(products: seq<string>, title: string): seq<string> {
    if title in products then products else products + [title]
  }

  function AddProduct(text: Text, db: Database, p: ProductEntry): Database {
    var title := Title(text, p);
    if title == "" then db
    else
      var products := AddTitle(db.products, title);
      Database(products, AddFiles(text, db.files, Resolve(products, title).value, p.files, |p.files|))
  }

  function Import(text: Text, db: Database, payload: seq<ProductEntry>, n: nat): Database
    requires n <= |payload|
  {
    if n == 0 then db else AddProduct(text, Import(text, db, payload, n - 1), payload[n - 1])
  }

  // ---- What it adds ----

  /** The identities that a product entry asks for. */
  function Asked(text: Text, entries: seq<FileEntry>, n: nat): set<Identity>
    requires n <= |entries|
  {
    if n == 0 then {}
    else Asked(text, entries, n - 1)
         + if Build(text, entries[n - 1]).Some? then {Build(text, entries[n - 1]).value} else {}
  }

  /** The identities that the payload asks for under a title. */
  function AskedUnder(text: Text, payload: seq<ProductEntry>, n: nat, title: string): set<Identity>
    requires n <= |payload|
  {
    if n == 0 then {}
    else AskedUnder(text, payload, n - 1, title)
         + if Title(text, payload[n - 1]) == title then Asked(text, payload[n - 1].files, |payload[n - 1].files|)
           else {}
  }

  lemma {:induction false} AddFilesUnion(text: Text, files: seq<KnownFile>, pid: ProductId, entries: seq<FileEntry>,
                                         n: nat, other: ProductId)
    requires n <= |entries|
    ensures Identities(AddFiles(text, files, pid, entries, n), other)
         == Identities(files, other) + if other == pid then Asked(text, entries, n) else {}
  {
    if n > 0 {
      AddFilesUnion(text, files, pid, entries, n - 1, other);
      var before, after := AddFiles(text, files, pid, entries, n - 1), AddFiles(text, files, pid, entries, n);
      if before != after {
        IdentitiesGrow(before, after[|before|], other);
      }
    }
  }

  lemma IdentitiesGrow(files: seq<KnownFile>, f: KnownFile, pid: ProductId)
    ensures Identities(files + [f], pid) == Identities(files, pid) + if f.product == pid then {f.identity} else {}
  {
  }

  /** Appending new titles changes no title's product. */
  lemma ResolveStable(products: seq<string>, title: string, other: string)
    ensures Resolve(AddTitle(products, title), other)
         == if other == title && title !in products then Some(|products|) else Resolve(products, other)
  {
    if title !in products {
      assert (products + [title])[..|products|] == products;
    }
  }

  /** One of the first `n` entries has this title. */
  predicate Mentions(text: Text, payload: seq<ProductEntry>, n: nat, title: string)
    requires n <= |payload|
  {
    n > 0 && (Mentions(text, payload, n - 1, title) || Title(text, payload[n - 1]) == title)
  }

  lemma {:induction false} MentionsAt(text: Text, payload: seq<ProductEntry>, n: nat, i: nat)
    requires i < n <= |payload|
    ensures Mentions(text, payload, n, Title(text, payload[i]))
  {
    if i < n - 1 { MentionsAt(text, payload, n - 1, i); }
  }

  /** Every product keeps its id and title, and of this title one is added if it is asked for and missing. */
  predicate ProductsKept(before: seq<string>, after: seq<string>, title: string, asked: bool) {
    && before <= after
    && (title in before ==> Resolve(after, title) == Resolve(before, title))
    && (title in after <==> title in before || (title != "" && asked))
  }

  lemma KeptTwice(before: seq<string>, middle: seq<string>, after: seq<string>, title: string, one: bool, two: bool)
    requires ProductsKept(before, middle, title, one) && ProductsKept(middle, after, title, two)
    ensures ProductsKept(before, after, title, one || two)
  {
  }

  lemma ProductKeepsProducts(text: Text, db: Database, p: ProductEntry, title: string)
    ensures ProductsKept(db.products, AddProduct(text, db, p).products, title, Title(text, p) == title)
  {
    ResolveStable(db.products, Title(text, p), title);
  }

  /**
    An import keeps every product and its title, and adds just the titles that the
    payload mentions and the database lacks.
   */
  lemma {:induction false} ImportKeepsProducts(text: Text, db: Database, payload: seq<ProductEntry>, n: nat,
                                               title: string)
    requires n <= |payload|
    ensures ProductsKept(db.products, Import(text, db, payload, n).products, title, Mentions(text, payload, n, title))
  {
    if n > 0 {
      var before, p := Import(text, db, payload, n - 1), payload[n - 1];
      ImportKeepsProducts(text, db, payload, n - 1, title);
      ProductKeepsProducts(text, before, p, title);
      KeptTwice(db.products, before.products, AddProduct(text, before, p).products, title,
                Mentions(text, payload, n - 1, title), Title(text, p) == title);
    }
  }

  /** Rows are only filed under products that exist. */
  ghost predicate Filed(db: Database) {
    forall f <- db.files :: f.product < |db.products|
  }

  lemma {:induction false} AddFilesKeepsFiled(text: Text, files: seq<KnownFile>, pid: ProductId,
                                              entries: seq<FileEntry>, n: nat, bound: nat)
    requires n <= |entries| && pid < bound && forall f <- files :: f.product < bound
    ensures forall f <- AddFiles(text, files, pid, entries, n) :: f.product < bound
  {
    if n > 0 { AddFilesKeepsFiled(text, files, pid, entries, n - 1, bound); }
  }

  lemma {:induction false} ImportKeepsFiled(text: Text, db: Database, payload: seq<ProductEntry>, n: nat)
    requires n <= |payload| && Filed(db)
    ensures Filed(Import(text, db, payload, n))
  {
    if n > 0 {
      ImportKeepsFiled(text, db, payload, n - 1);
      var before, p := Import(text, db, payload, n - 1), payload[n - 1];
      var title := Title(text, p);
      if title != "" {
        var products := AddTitle(before.products, title);
        AddFilesKeepsFiled(text, before.files, Resolve(products, title).value, p.files, |p.files|, |products|);
      }
    }
  }

  lemma {:induction false} NotAsked(text: Text, payload: seq<ProductEntry>, n: nat, title: string)
    requires n <= |payload| && !Mentions(text, payload, n, title)
    ensures AskedUnder(text, payload, n, title) == {}
  {
    if n > 0 { NotAsked(text, payload, n - 1, title); }
  }

  /** The title a product goes by, if it is the one that its title resolves to. */
  predicate GoesBy(products: seq<string>, pid: ProductId, title: string) {
    title != "" && Resolve(products, title) == Some(pid)
  }

  /** What one entry of the payload adds to a product. */
  lemma ProductStep(text: Text, db: Database, p: ProductEntry, pid: ProductId)
    ensures var after := AddProduct(text, db, p);
      Identities(after.files, pid) == Identities(db.files, pid)
        + if GoesBy(after.products, pid, Title(text, p)) then Asked(text, p.files, |p.files|) else {}
  {
    var title := Title(text, p);
    if title != "" {
      AddFilesUnion(text, db.files, Resolve(AddTitle(db.products, title), title).value, p.files, |p.files|, pid);
    }
  }

  /** A product that does not go by its title before a step that makes it do so is created by that step. */
  lemma CreatedByStep(text: Text, db: Database, p: ProductEntry, pid: ProductId, title: string)
    requires !GoesBy(db.products, pid, title) && GoesBy(AddProduct(text, db, p).products, pid, title)
    ensures pid == |db.products| && title !in db.products && Title(text, p) == title
  {
    ResolveStable(db.products, Title(text, p), title);
  }

  lemma NewProductIsEmpty(text: Text, db: Database, payload: seq<ProductEntry>, n: nat, title: string)
    requires n <= |payload| && Filed(db) && title != "" && title !in Import(text, db, payload, n).products
    ensures AskedUnder(text, payload, n, title) == {}
    ensures Identities(Import(text, db, payload, n).files, |Import(text, db, payload, n).products|) == {}
    ensures Identities(db.files, |Import(text, db, payload, n).products|) == {}
  {
    ImportKeepsFiled(text, db, payload, n);
    ImportKeepsProducts(text, db, payload, n, title);
    NotAsked(text, payload, n, title);
  }

  /** One entry adds what it asks for, and a product that the entry creates starts empty. */
  lemma UnionStep(text: Text, db: Database, payload: seq<ProductEntry>, n: nat, pid: ProductId, title: string)
    requires 0 < n <= |payload| && Filed(db) && GoesBy(Import(text, db, payload, n).products, pid, title)
    requires var before := Import(text, db, payload, n - 1);
      GoesBy(before.products, pid, title) ==>
        Identities(before.files, pid) == Identities(db.files, pid) + AskedUnder(text, payload, n - 1, title)
    ensures var before := Import(text, db, payload, n - 1);
      Identities(before.files, pid) == Identities(db.files, pid) + AskedUnder(text, payload, n - 1, title)
  {
    var before := Import(text, db, payload, n - 1);
    if !GoesBy(before.products, pid, title) {
      CreatedByStep(text, before, payload[n - 1], pid, title);
      NewProductIsEmpty(text, db, payload, n - 1, title);
    }
  }

  /** The entry's title is the product's, exactly when it names the product. */
  lemma SameTitle(products: seq<string>, pid: ProductId, title: string, other: string)
    requires GoesBy(products, pid, title)
    ensures GoesBy(products, pid, other) <==> other == title
  {
  }

  /**
    After an import, the product that goes by a title holds what it held together
    with all that the payload asks for under the title.
   */
  lemma {:induction false} ImportIsUnion(text: Text, db: Database, payload: seq<ProductEntry>, n: nat, pid: ProductId,
                                         title: string)
    requires n <= |payload| && Filed(db) && GoesBy(Import(text, db, payload, n).products, pid, title)
    ensures Identities(Import(text, db, payload, n).files, pid)
            == Identities(db.files, pid) + AskedUnder(text, payload, n, title)
  {
    if n > 0 {
      var before, p := Import(text, db, payload, n - 1), payload[n - 1];
      if GoesBy(before.products, pid, title) {
        ImportIsUnion(text, db, payload, n - 1, pid, title);
      }
      UnionStep(text, db, payload, n, pid, title);
      ProductStep(text, before, p, pid);
      SameTitle(AddProduct(text, before, p).products, pid, title, Title(text, p));
    }
  }

  /** Every other product keeps what it held. */
  lemma {:induction false} OthersKeep(text: Text, db: Database, payload: seq<ProductEntry>, n: nat, pid: ProductId)
    requires n <= |payload|
    requires forall i | 0 <= i < n :: !GoesBy(Import(text, db, payload, n).products, pid, Title(text, payload[i]))
    ensures Identities(Import(text, db, payload, n).files, pid) == Identities(db.files, pid)
  {
    if n > 0 {
      var before := Import(text, db, payload, n - 1);
      forall i | 0 <= i < n - 1 ensures !GoesBy(before.products, pid, Title(text, payload[i])) {
        ResolveStable(before.products, Title(text, payload[n - 1]), Title(text, payload[i]));
      }
      OthersKeep(text, db, payload, n - 1, pid);
      ProductStep(text, before, payload[n - 1], pid);
    }
  }

  // ---- Importing again ----

  lemma {:induction false} AskedHolds(text: Text, entries: seq<FileEntry>, n: nat, i: nat)
    requires i < n <= |entries| && Build(text, entries[i]).Some?
    ensures Build(text, entries[i]).value in Asked(text, entries, n)
  {
    if i < n - 1 { AskedHolds(text, entries, n - 1, i); }
  }

  lemma {:induction false} AskedUnderHolds(text: Text, payload: seq<ProductEntry>, n: nat, i: nat)
    requires i < n <= |payload|
    ensures Asked(text, payload[i].files, |payload[i].files|) <= AskedUnder(text, payload, n, Title(text, payload[i]))
  {
    if i < n - 1 { AskedUnderHolds(text, payload, n - 1, i); }
  }

  lemma {:induction false} NothingToAdd(text: Text, files: seq<KnownFile>, pid: ProductId, entries: seq<FileEntry>,
                                        n: nat)
    requires n <= |entries| && Asked(text, entries, |entries|) <= Identities(files, pid)
    ensures AddFiles(text, files, pid, entries, n) == files
  {
    if n > 0 {
      NothingToAdd(text, files, pid, entries, n - 1);
      if Build(text, entries[n - 1]).Some? { AskedHolds(text, entries, |entries|, n - 1); }
    }
  }

  /** An entry whose import is done adds nothing. */
  lemma EntryAgain(text: Text, db: Database, payload: seq<ProductEntry>, i: nat)
    requires i < |payload| && Filed(db)
    ensures var after := Import(text, db, payload, |payload|); AddProduct(text, after, payload[i]) == after
  {
    var after, p := Import(text, db, payload, |payload|), payload[i];
    var title := Title(text, p);
    if title != "" {
      MentionsAt(text, payload, |payload|, i);
      ImportKeepsProducts(text, db, payload, |payload|, title);
      var pid := Resolve(after.products, title).value;
      ImportIsUnion(text, db, payload, |payload|, pid, title);
      AskedUnderHolds(text, payload, |payload|, i);
      NothingToAdd(text, after.files, pid, p.files, |p.files|);
    }
  }

  lemma {:induction false} ImportOfNothingNew(text: Text, db: Database, payload: seq<ProductEntry>, n: nat)
    requires n <= |payload| && forall i | 0 <= i < n :: AddProduct(text, db, payload[i]) == db
    ensures Import(text, db, payload, n) == db
  {
    if n > 0 { ImportOfNothingNew(text, db, payload, n - 1); }
  }

  /** Importing the same payload again adds no product and no file. */
  lemma ImportAgain(text: Text, db: Database, payload: seq<ProductEntry>)
    requires Filed(db)
    ensures var after := Import(text, db, payload, |payload|); Import(text, after, payload, |payload|) == after
  {
    var after := Import(text, db, payload, |payload|);
    forall i | 0 <= i < |payload| ensures AddProduct(text, after, payload[i]) == after {
      EntryAgain(text, db, payload, i);
    }
    ImportOfNothingNew(text, after, payload, |payload|);
  }

  // ---- The rows added ----

  ghost predicate NoneTwice(files: seq<KnownFile>, from: nat) {
    forall i, j | 0 <= i < j < |files| && from <= j :: files[i] != files[j]
  }

  lemma {:induction false} AddFilesOnce(text: Text, files: seq<KnownFile>, pid: ProductId, entries: seq<FileEntry>,
                                        n: nat, from: nat)
    requires n <= |entries| && NoneTwice(files, from)
    ensures files <= AddFiles(text, files, pid, entries, n) && NoneTwice(AddFiles(text, files, pid, entries, n), from)
  {
    if n > 0 {
      AddFilesOnce(text, files, pid, entries, n - 1, from);
      var before, after := AddFiles(text, files, pid, entries, n - 1), AddFiles(text, files, pid, entries, n);
      if before != after {
        forall i | 0 <= i < |before| ensures before[i] != after[|before|] {
          assert before[i] in before;
        }
      }
    }
  }

  /** An import only appends rows, and none that is there already. */
  lemma {:induction false} ImportAppends(text: Text, db: Database, payload: seq<ProductEntry>, n: nat)
    requires n <= |payload|
    ensures var after := Import(text, db, payload, n);
      db.files <= after.files && NoneTwice(after.files, |db.files|)
  {
    if n > 0 {
      ImportAppends(text, db, payload, n - 1);
      var before, p := Import(text, db, payload, n - 1), payload[n - 1];
      var title := Title(text, p);
      if title != "" {
        AddFilesOnce(text, before.files, Resolve(AddTitle(before.products, title), title).value, p.files, |p.files|,
          |db.files|);
      }
    }
  }
}
