/** The import handler with its two caches (myapp/blueprints/api.py). */
module HashImporter {
  import opened Options
  import opened HashImport
  import opened HashColumns

  class Importer {
    const text: Text
    var products: seq<string>
    var files: seq<KnownFile>
    /** existing_products and existing_file_keys */
    var existing: map<string, ProductId>
    var keys: map<ProductId, set<Identity>>

    ghost function Rows(): Database reads this {
      Database(products, files)
    }

    /** A title is looked up as a fresh query would find it; keys once loaded equal what is stored and pending. */
    ghost predicate Cached() reads this {
      && Filed(Rows())
      && (forall title :: title in existing <==> title in products)
      && (forall title <- existing :: Resolve(products, title) == Some(existing[title]))
      && (forall pid <- keys :: keys[pid] == Identities(files, pid))
    }

    constructor (text: Text, db: Database)
      ensures this.text == text && Rows() == db
    {
      this.text := text;
      products, files := db.products, db.files;
      existing, keys := map[], map[];
    }

    /** The query for all products: a later row overwrites an earlier one of its title. */
    method LoadProducts()
      modifies `existing
      ensures forall title :: title in existing <==> title in products
      ensures forall title <- existing :: Resolve(products, title) == Some(existing[title])
    {
      existing := map[];
      for i := 0 to |products|
        invariant forall title :: title in existing <==> title in products[..i]
        invariant forall title <- existing :: Resolve(products[..i], title) == Some(existing[title])
      {
        assert products[..i + 1][..i] == products[..i];
        existing := existing[products[i] := i];
      }
      assert products[..|products|] == products;
    }

    /** _file_keys: loaded the first time a product needs them. */
    method FileKeys(pid: ProductId) returns (identities: set<Identity>)
      requires Cached()
      modifies `keys
      ensures Cached() && pid in keys && identities == keys[pid] == Identities(files, pid)
    {
      if pid !in keys {
        var loaded: set<Identity> := {};
        for i := 0 to |files|
          invariant loaded == Identities(files[..i], pid) && keys == old(keys)
        {
          assert files[..i + 1] == files[..i] + [files[i]];
          IdentitiesGrow(files[..i], files[i], pid);
          if files[i].product == pid { loaded := loaded + {files[i].identity}; }
        }
        assert files[..|files|] == files;
        assert loaded == Identities(files, pid);
        keys := keys[pid := loaded];
      }
      identities := keys[pid];
    }

    /** Find the product of a title, or create it. */
    method FindProduct(title: string) returns (pid: ProductId, created: bool)
      requires Cached()
      modifies `products, `existing, `keys
      ensures Cached() && products == AddTitle(old(products), title)
      ensures Resolve(products, title) == Some(pid) && pid < |products| && created == (title !in old(products))
    {
      ResolveAll(title);
      created := title !in existing;
      if created {
        pid := |products|;
        assert Identities(files, pid) == {};
        products := products + [title];
        existing := existing[title := pid];
        keys := keys[pid := {}];
      } else {
        pid := existing[title];
      }
    }

    lemma ResolveAll(title: string)
      ensures forall other :: Resolve(AddTitle(products, title), other)
                           == if other == title && title !in products then Some(|products|)
                             else Resolve(products, other)
    {
      forall other ensures Resolve(AddTitle(products, title), other)
                        == if other == title && title !in products then Some(|products|) else Resolve(products, other)
      {
        ResolveStable(products, title, other);
      }
    }

    method AddOne(pid: ProductId, f: FileEntry) returns (added: bool)
      requires Cached() && pid in keys && pid < |products|
      modifies `files, `keys
      ensures Cached() && pid in keys
      ensures files == AddFile(text, old(files), pid, f) && added == (|files| > |old(files)|)
    {
      var identity := Build(text, f);
      if identity.None? || identity.value in keys[pid] { return false; }
      GrowAll(KnownFile(pid, identity.value));
      keys := keys[pid := keys[pid] + {identity.value}];
      files := files + [KnownFile(pid, identity.value)];
      added := true;
    }

    lemma GrowAll(f: KnownFile)
      ensures forall pid ::
                Identities(files + [f], pid) == Identities(files, pid) + if f.product == pid then {f.identity} else {}
    {
      forall pid
        ensures Identities(files + [f], pid) == Identities(files, pid) + if f.product == pid then {f.identity} else {}
      {
        IdentitiesGrow(files, f, pid);
      }
    }

    method AddAll(pid: ProductId, entries: seq<FileEntry>) returns (added: nat)
      requires Cached() && pid < |products|
      modifies `files, `keys
      ensures Cached() && files == AddFiles(text, old(files), pid, entries, |entries|)
              && |files| == |old(files)| + added
    {
      added := 0;
      var loaded := FileKeys(pid);
      for i := 0 to |entries|
        invariant Cached() && pid in keys
        invariant files == AddFiles(text, old(files), pid, entries, i) && |files| == |old(files)| + added
      {
        var isNew := AddOne(pid, entries[i]);
        if isNew { added := added + 1; }
      }
    }

    /** One product of the payload; without a title it is passed over. */
    method ImportProduct(p: ProductEntry) returns (created: bool, reused: bool, added: nat)
      requires Cached()
      modifies `products, `files, `existing, `keys
      ensures Cached() && Rows() == AddProduct(text, old(Rows()), p)
      ensures |products| == |old(products)| + (if created then 1 else 0) && |files| == |old(files)| + added
      ensures (created || reused) == (Title(text, p) != "") && !(created && reused)
    {
      created, reused, added := false, false, 0;
      var title := Title(text, p);
      if title != "" {
        var pid;
        pid, created := FindProduct(title);
        reused := !created;
        added := AddAll(pid, p.files);
      }
    }

    /** import_known_database */
    method ImportKnownDatabase(payload: seq<ProductEntry>)
      returns (productsAdded: nat, productsReused: nat, filesAdded: nat)
      requires Filed(Rows())
      modifies this
      ensures Rows() == Import(text, old(Rows()), payload, |payload|) && Filed(Rows())
      ensures |products| == |old(products)| + productsAdded && |files| == |old(files)| + filesAdded
      ensures productsAdded + productsReused == |TitledAmong(text, payload, |payload|)|
      // Column by column: every entry is there, and what is new is an entry.
      ensures MeetsPayload(text, old(Rows()), Rows(), payload)
    {
      ImportMeetsPayload(text, Rows(), payload);
      TitledCount(text, payload, |payload|);
      ghost var before := Rows();
      keys := map[];
      LoadProducts();
      productsAdded, productsReused, filesAdded := 0, 0, 0;
      for i := 0 to |payload|
        invariant Cached() && Rows() == Import(text, before, payload, i)
        invariant |products| == |before.products| + productsAdded && |files| == |before.files| + filesAdded
        invariant productsAdded + productsReused == CountTitled(text, payload, i)
      {
        var created, reused, added := ImportProduct(payload[i]);
        productsAdded := productsAdded + if created then 1 else 0;
        productsReused := productsReused + if reused then 1 else 0;
        filesAdded := filesAdded + added;
      }
    }
  }

  /** Running the import twice: the second run reports nothing added. */
  method ImportTwice(importer: Importer, payload: seq<ProductEntry>) returns (productsAdded: nat, filesAdded: nat)
    requires Filed(importer.Rows())
    modifies importer
    ensures productsAdded == 0 && filesAdded == 0
    ensures importer.Rows() == Import(importer.text, old(importer.Rows()), payload, |payload|)
  {
    ghost var before := importer.Rows();
    var productsFirst, reusedFirst, filesFirst := importer.ImportKnownDatabase(payload);
    ImportAgain(importer.text, before, payload);
    var reused;
    productsAdded, reused, filesAdded := importer.ImportKnownDatabase(payload);
  }
}
