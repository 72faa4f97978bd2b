/** What an import leaves in the columns of known_files, told from the payload (myapp/blueprints/api.py). */
module HashColumns {
  import opened Options
  import opened HashImport

  /** A hash column: empty when the payload has none, else in lower case. */
  predicate IsHash(text: Text, given: Option<string>, stored: Option<string>) {
    if given.None? || text.lower(given.value) == "" then stored == None else stored == Some(text.lower(given.value))
  }

  predicate HasName(f: FileEntry) {
    f.filename.Some? && f.filename.value != ""
  }

  /** The row's columns are those of the entry. */
  predicate IsRowOf(text: Text, f: FileEntry, row: KnownFile) {
    && HasName(f) && row.identity.filename == f.filename.value && row.identity.relativePath == f.relativePath
    && IsHash(text, f.md5, row.identity.md5)
    && IsHash(text, f.sha1, row.identity.sha1)
    && IsHash(text, f.sha256, row.identity.sha256)
  }

  /** What a product entry goes by: its title without blanks around it, or that of an empty title. */
  predicate GoesUnder(text: Text, p: ProductEntry, title: string) {
    title == text.strip(if p.title.Some? then p.title.value else "")
  }

  /** The last product of this title. */
  predicate IsProductOf(products: seq<string>, pid: ProductId, title: string) {
    pid < |products| && products[pid] == title && forall later | pid < later < |products| :: products[later] != title
  }

  lemma BuildIs(text: Text, f: FileEntry, pid: ProductId, identity: Identity)
    ensures Build(text, f) == Some(identity) <==> IsRowOf(text, f, KnownFile(pid, identity))
  {
  }

  lemma {:induction false} ResolveIs(products: seq<string>, title: string, pid: ProductId)
    ensures Resolve(products, title) == Some(pid) <==> IsProductOf(products, pid, title)
    decreases |products|
  {
    if products != [] {
      var init := products[..|products| - 1];
      ResolveIs(init, title, pid);
      if products[|products| - 1] != title {
        assert pid < |init| ==> init[pid] == products[pid];
        assert forall k | 0 <= k < |init| :: init[k] == products[k];
      }
    }
  }

  // ---- Everything asked for is there ----

  /** The product of the title has a row for the entry. */
  ghost predicate HasRow(text: Text, db: Database, title: string, f: FileEntry) {
    exists row <- db.files :: IsProductOf(db.products, row.product, title) && IsRowOf(text, f, row)
  }

  /** Each entry with a file name, of each titled product of the payload, has its row under the title's product. */
  lemma EveryEntryHasARow(text: Text, db: Database, payload: seq<ProductEntry>, i: nat, j: nat, title: string)
    requires Filed(db) && i < |payload| && j < |payload[i].files|
    requires GoesUnder(text, payload[i], title) && title != "" && HasName(payload[i].files[j])
    ensures HasRow(text, Import(text, db, payload, |payload|), title, payload[i].files[j])
  {
    var after, entries := Import(text, db, payload, |payload|), payload[i].files;
    assert Title(text, payload[i]) == title;
    MentionsAt(text, payload, |payload|, i);
    ImportKeepsProducts(text, db, payload, |payload|, title);
    var pid := Resolve(after.products, title).value;
    ImportIsUnion(text, db, payload, |payload|, pid, title);
    AskedUnderHolds(text, payload, |payload|, i);
    AskedHolds(text, entries, |entries|, j);
    var identity := Build(text, entries[j]).value;
    assert identity in Identities(after.files, pid);
    var row :| row in after.files && row.product == pid && row.identity == identity;
    ResolveIs(after.products, title, pid);
    BuildIs(text, entries[j], pid, identity);
    assert row == KnownFile(pid, identity);
  }

  // ---- Nothing else is added ----

  /** Some entry among the first `n` products asks for the row, under a title that is the row's product's. */
  ghost predicate IsAskedFor(text: Text, products: seq<string>, payload: seq<ProductEntry>, n: nat, row: KnownFile)
    requires n <= |payload|
  {
    exists i, j | 0 <= i < n && 0 <= j < |payload[i].files| ::
      && row.product < |products| && products[row.product] != ""
      && GoesUnder(text, payload[i], products[row.product]) && IsRowOf(text, payload[i].files[j], row)
  }

  lemma {:induction false} AddedByFiles(text: Text, files: seq<KnownFile>, pid: ProductId,
                                        entries: seq<FileEntry>, n: nat, k: nat)
    requires n <= |entries| && |files| <= k < |AddFiles(text, files, pid, entries, n)|
    ensures var row := AddFiles(text, files, pid, entries, n)[k];
      row.product == pid && exists j | 0 <= j < n :: IsRowOf(text, entries[j], row)
  {
    var before := AddFiles(text, files, pid, entries, n - 1);
    if k < |before| {
      AddedByFiles(text, files, pid, entries, n - 1, k);
    } else {
      BuildIs(text, entries[n - 1], pid, Build(text, entries[n - 1]).value);
    }
  }

  lemma StillAskedFor(text: Text, products: seq<string>, more: seq<string>, payload: seq<ProductEntry>, n: nat,
                      row: KnownFile)
    requires 0 < n <= |payload| && products <= more && IsAskedFor(text, products, payload, n - 1, row)
    ensures IsAskedFor(text, more, payload, n, row)
  {
    var i, j :| 0 <= i < n - 1 && 0 <= j < |payload[i].files|
                && row.product < |products| && products[row.product] != ""
                && GoesUnder(text, payload[i], products[row.product]) && IsRowOf(text, payload[i].files[j], row);
    assert more[row.product] == products[row.product];
  }

  /** Each added row is asked for by an entry of the payload, under the title of the row's product. */
  lemma {:induction false} EveryRowIsAskedFor(text: Text, db: Database, payload: seq<ProductEntry>, n: nat, k: nat)
    requires n <= |payload| && |db.files| <= k < |Import(text, db, payload, n).files|
    ensures var after := Import(text, db, payload, n); IsAskedFor(text, after.products, payload, n, after.files[k])
  {
    var before, p := Import(text, db, payload, n - 1), payload[n - 1];
    var after, title := AddProduct(text, before, p), Title(text, p);
    if k < |before.files| {
      EveryRowIsAskedFor(text, db, payload, n - 1, k);
      ImportAppends(text, db, payload, n - 1);
      AppendsOnly(text, before, p);
      StillAskedFor(text, before.products, after.products, payload, n, before.files[k]);
    } else {
      var pid := Resolve(AddTitle(before.products, title), title).value;
      AddedByFiles(text, before.files, pid, p.files, |p.files|, k);
    }
  }

  lemma AppendsOnly(text: Text, db: Database, p: ProductEntry)
    ensures var after := AddProduct(text, db, p); db.products <= after.products && db.files <= after.files
  {
    var title := Title(text, p);
    if title != "" {
      var pid := Resolve(AddTitle(db.products, title), title).value;
      AddFilesOnce(text, db.files, pid, p.files, |p.files|, |db.files|);
    }
  }

  // ---- The whole import ----

  /** Each entry with a name has its row under its title's product, and each added row is such an entry's. */
  ghost predicate MeetsPayload(text: Text, before: Database, after: Database, payload: seq<ProductEntry>) {
    && before.files <= after.files && before.products <= after.products
    && (forall i, j | 0 <= i < |payload| && 0 <= j < |payload[i].files| && HasName(payload[i].files[j]) ::
          forall title | GoesUnder(text, payload[i], title) && title != "" ::
            HasRow(text, after, title, payload[i].files[j]))
    && (forall k | |before.files| <= k < |after.files| ::
          IsAskedFor(text, after.products, payload, |payload|, after.files[k]))
    && (forall title :: title in after.products <==> title in before.products || IsTitled(text, payload, title))
  }

  /** Some product of the payload goes by this title, which is not blank. */
  ghost predicate IsTitled(text: Text, payload: seq<ProductEntry>, title: string) {
    title != "" && exists i | 0 <= i < |payload| :: GoesUnder(text, payload[i], title)
  }

  lemma {:induction false} MentionsIs(text: Text, payload: seq<ProductEntry>, n: nat, title: string)
    requires n <= |payload|
    ensures Mentions(text, payload, n, title) <==> exists i | 0 <= i < n :: GoesUnder(text, payload[i], title)
  {
    if n > 0 {
      MentionsIs(text, payload, n - 1, title);
      assert Title(text, payload[n - 1]) == title <==> GoesUnder(text, payload[n - 1], title);
    }
  }

  lemma ImportMeetsPayload(text: Text, db: Database, payload: seq<ProductEntry>)
    requires Filed(db)
    ensures MeetsPayload(text, db, Import(text, db, payload, |payload|), payload)
  {
    var after := Import(text, db, payload, |payload|);
    ImportAppends(text, db, payload, |payload|);
    ImportKeepsProducts(text, db, payload, |payload|, "");
    forall i, j | 0 <= i < |payload| && 0 <= j < |payload[i].files| && HasName(payload[i].files[j])
      ensures forall title | GoesUnder(text, payload[i], title) && title != "" ::
        HasRow(text, after, title, payload[i].files[j])
    {
      forall title | GoesUnder(text, payload[i], title) && title != "" {
        EveryEntryHasARow(text, db, payload, i, j, title);
      }
    }
    forall k | |db.files| <= k < |after.files| {
      EveryRowIsAskedFor(text, db, payload, |payload|, k);
    }
    forall title ensures title in after.products <==> title in db.products || IsTitled(text, payload, title) {
      ImportKeepsProducts(text, db, payload, |payload|, title);
      MentionsIs(text, payload, |payload|, title);
    }
  }

  /** The number of products with a title at all. */
  lemma {:induction false} TitledCount(text: Text, payload: seq<ProductEntry>, n: nat)
    requires n <= |payload|
    ensures CountTitled(text, payload, n) == |TitledAmong(text, payload, n)|
  {
    if n > 0 {
      TitledCount(text, payload, n - 1);
      TitledNext(text, payload, n);
    } else {
      assert TitledAmong(text, payload, 0) == {};
    }
  }

  function TitledAmong(text: Text, payload: seq<ProductEntry>, n: nat): set<nat>
    requires n <= |payload|
  {
    set i: nat | i < n && !GoesUnder(text, payload[i], "")
  }

  lemma TitledNext(text: Text, payload: seq<ProductEntry>, n: nat)
    requires 0 < n <= |payload|
    ensures |TitledAmong(text, payload, n)|
         == |TitledAmong(text, payload, n - 1)| + if GoesUnder(text, payload[n - 1], "") then 0 else 1
  {
    var one := if GoesUnder(text, payload[n - 1], "") then {} else {n - 1};
    assert TitledAmong(text, payload, n) == TitledAmong(text, payload, n - 1) + one;
  }

  /** The entries that have a title at all. */
  function CountTitled(text: Text, payload: seq<ProductEntry>, n: nat): nat
    requires n <= |payload|
  {
    if n == 0 then 0 else CountTitled(text, payload, n - 1) + if Title(text, payload[n - 1]) != "" then 1 else 0
  }
}
