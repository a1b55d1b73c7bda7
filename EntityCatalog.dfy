/** `get_available_entities` (app.py:24-33): the entity names offered to the
    client, one per schema directory. The directory iteration is an input: the
    sequence of entries of the schema root in whatever order the file system
    yields them. */
module EntityCatalog {
  import opened NameCodec
  import opened Ordering

  /** One entry of the schema root: its name, whether it is a directory, and
      whether it holds a `validation_schema.json` file. */
  datatype DirEntry = DirEntry(name: string, isDir: bool, hasSchema: bool)

  predicate IsSchemaDir(e: DirEntry) {
    e.isDir && e.hasSchema
  }

  /** The entity names the loop collects from the first `k` entries, in
      iteration order. */
  function CollectedNames(items: seq<DirEntry>, k: nat): seq<string>
    requires k <= |items|
    decreases k
  {
    if k == 0 then [] else CollectedNames(items, k - 1) + Emitted(items[k - 1])
  }

  /** What the loop appends for one entry. */
  function Emitted(e: DirEntry): seq<string> {
    if IsSchemaDir(e) then [ToEntityName(e.name)] else []
  }

  /** Entry `k` of `items` is a schema directory whose entity name is `n`. */
  predicate ListsAt(items: seq<DirEntry>, k: int, n: string) {
    0 <= k < |items| && IsSchemaDir(items[k]) && n == ToEntityName(items[k].name)
  }

  /** A name is collected from the first `k` entries exactly when one of them
      is a schema directory that converts to it. */
  lemma {:induction false} CollectedNamesMembers(items: seq<DirEntry>, k: nat, n: string)
    requires k <= |items|
    ensures n in CollectedNames(items, k) <==> exists j :: j < k && ListsAt(items, j, n)
    decreases k
  {
    if k > 0 {
      CollectedNamesMembers(items, k - 1, n);
      InAppend(CollectedNames(items, k - 1), Emitted(items[k - 1]), n);
      EmittedListed(items, k - 1, n);
      assert CollectedNames(items, k) == CollectedNames(items, k - 1) + Emitted(items[k - 1]);
      if n in CollectedNames(items, k - 1) {
        var j :| j < k - 1 && ListsAt(items, j, n);
        assert j < k && ListsAt(items, j, n);
      } else if ListsAt(items, k - 1, n) {
        assert k - 1 < k;
      } else {
        assert forall j :: j < k && ListsAt(items, j, n) ==> j < k - 1;
      }
    }
  }

  /** Over the whole directory listing. */
  lemma ListedIff(items: seq<DirEntry>, n: string)
    ensures n in CollectedNames(items, |items|) <==> exists k :: ListsAt(items, k, n)
  {
    CollectedNamesMembers(items, |items|, n);
    if exists k :: ListsAt(items, k, n) {
      var k :| ListsAt(items, k, n);
      assert k < |items| && ListsAt(items, k, n);
    }
  }

  lemma MultisetMembers<T>(a: seq<T>, b: seq<T>)
    requires multiset(a) == multiset(b)
    ensures forall x :: x in a <==> x in b
  {
    forall x ensures x in a <==> x in b {
      assert x in a <==> x in multiset(a);
      assert x in b <==> x in multiset(b);
    }
  }

  lemma InAppend<T>(a: seq<T>, b: seq<T>, x: T)
    ensures x in a + b <==> x in a || x in b
  {
  }

  lemma EmittedListed(items: seq<DirEntry>, k: nat, n: string)
    requires k < |items|
    ensures n in Emitted(items[k]) <==> ListsAt(items, k, n)
  {
  }

  /** The listing: empty when the schema root does not exist, otherwise the
      converted names of the schema directories, in sorted order, each as
      often as a directory converts to it. */
  method GetAvailableEntities(rootExists: bool, items: seq<DirEntry>) returns (entities: seq<string>)
    ensures Sorted(entities)
    ensures !rootExists ==> entities == []
    ensures rootExists ==> multiset(entities) == multiset(CollectedNames(items, |items|))
    ensures forall n :: n in entities <==> rootExists && exists k :: ListsAt(items, k, n)
  {
    var collected: seq<string> := [];
    if rootExists {
      for k := 0 to |items|
        invariant collected == CollectedNames(items, k)
      {
        var item := items[k];
        assert CollectedNames(items, k + 1) == collected + Emitted(item);
        if item.isDir && item.hasSchema {
          var entityName := ToEntityName(item.name);
          collected := collected + [entityName];
        }
      }
    }
    entities := SortStrings(collected);
    MultisetMembers(entities, collected);
    forall n ensures n in collected <==> rootExists && exists k :: ListsAt(items, k, n) {
      ListedIff(items, n);
    }
  }
}
