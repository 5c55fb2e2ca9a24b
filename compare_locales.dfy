/**
 * The translation-key comparison script: each locale file is flattened into its dotted key
 * paths, and the French and Arabic paths are compared with the English ones.
 *
 * A parsed JSON value is either an object, whose members are given in the order `for…in`
 * visits them, or a leaf: a string, number, boolean, array or `null`, none of which the
 * flattening looks into.
 */
module CompareLocales {

  /**
   * Keys are not required to be distinct: a parsed object never repeats a key, and the
   * flattening below neither relies on that nor checks it.
   */
  datatype Json = Leaf | Object(members: seq<Member>)

  datatype Member = Member(key: string, value: Json)

  /** The path of `key` under `prefix`: `prefix.key`, or `key` alone when the prefix is empty. */
  function PathOf(prefix: string, key: string): (p: string)
    ensures prefix == "" ==> p == key
    ensures prefix != "" ==> |p| == |prefix| + 1 + |key| && p[..|prefix|] == prefix && p[|prefix|] == '.'
  {
    if prefix != "" then prefix + "." + key else key
  }

  /** The key paths of an object's members, in order: a leaf gives its path, an object the paths inside it. */
  function Paths(members: seq<Member>, prefix: string): seq<string>
    decreases members
  {
    if members == [] then []
    else
      var m := members[0];
      (match m.value
       case Leaf => [PathOf(prefix, m.key)]
       case Object(inner) => Paths(inner, PathOf(prefix, m.key))) +
      Paths(members[1..], prefix)
  }

  /** The number of leaves below an object's members, nested objects included. */
  function LeafCount(members: seq<Member>): nat
    decreases members
  {
    if members == [] then 0
    else
      (match members[0].value
       case Leaf => 1
       case Object(inner) => LeafCount(inner)) +
      LeafCount(members[1..])
  }

  /**
   * `getKeys(obj, prefix)`: the loop over the members pushes the path of each leaf and
   * concatenates the keys of each nested object, found by the recursive call.
   */
  method GetKeys(members: seq<Member>, prefix: string) returns (keys: seq<string>)
    ensures keys == Paths(members, prefix)
    ensures |keys| == LeafCount(members)
    decreases members
  {
    keys := [];
    var i := 0;
    while i < |members|
      invariant 0 <= i <= |members|
      invariant keys + Paths(members[i..], prefix) == Paths(members, prefix)
    {
      var m := members[i];
      assert members[i..][1..] == members[i + 1..];
      var path := PathOf(prefix, m.key);
      var found;
      match m.value {
        case Object(inner) =>
          found := GetKeys(inner, path);
        case Leaf =>
          found := [path];
      }
      assert Paths(members[i..], prefix) == found + Paths(members[i + 1..], prefix);
      keys := keys + found;
      i := i + 1;
    }
    PathCount(members, prefix);
  }

  /** There is one path per leaf. */
  lemma {:induction false} PathCount(members: seq<Member>, prefix: string)
    ensures |Paths(members, prefix)| == LeafCount(members)
    decreases members
  {
    if members != [] {
      match members[0].value {
        case Leaf =>
        case Object(inner) => PathCount(inner, PathOf(prefix, members[0].key));
      }
      PathCount(members[1..], prefix);
    }
  }

  /** Whether every member's value is a leaf. */
  predicate Flat(members: seq<Member>)
  {
    forall i :: 0 <= i < |members| ==> members[i].value.Leaf?
  }

  /** For an object of leaves only, the paths are exactly its keys, in order, under the prefix. */
  lemma {:induction false} FlatObjectPaths(members: seq<Member>, prefix: string)
    requires Flat(members)
    ensures |Paths(members, prefix)| == |members|
    ensures forall i :: 0 <= i < |members| ==> Paths(members, prefix)[i] == PathOf(prefix, members[i].key)
    decreases members
  {
    if members != [] {
      FlatObjectPaths(members[1..], prefix);
    }
  }

  /** An empty nested object contributes no path at all. */
  lemma EmptyObjectHasNoPath(key: string, rest: seq<Member>, prefix: string)
    ensures Paths([Member(key, Object([]))] + rest, prefix) == Paths(rest, prefix)
  {
    var ms := [Member(key, Object([]))] + rest;
    assert ms[1..] == rest;
  }

  /** A nested object's paths all start with its own path and a dot. */
  lemma {:induction false} NestedPathsArePrefixed(members: seq<Member>, prefix: string)
    requires prefix != ""
    ensures forall p :: p in Paths(members, prefix) ==>
      |p| > |prefix| && p[..|prefix|] == prefix && p[|prefix|] == '.'
    decreases members
  {
    if members != [] {
      var m := members[0];
      var path := PathOf(prefix, m.key);
      match m.value {
        case Leaf =>
        case Object(inner) =>
          NestedPathsArePrefixed(inner, path);
          forall p | p in Paths(inner, path)
            ensures |p| > |prefix| && p[..|prefix|] == prefix && p[|prefix|] == '.'
          {
            assert p[..|prefix|] == p[..|path|][..|prefix|];
            assert p[|prefix|] == p[..|path|][|prefix|];
          }
      }
      NestedPathsArePrefixed(members[1..], prefix);
    }
  }

  // ---------------------------------------------------------------------------
  // Comparison
  // ---------------------------------------------------------------------------

  /** `a.filter(k => !b.includes(k))` */
  function Without(a: seq<string>, b: seq<string>): (r: seq<string>)
  {
    if a == [] then []
    else (if a[0] in b then [] else [a[0]]) + Without(a[1..], b)
  }

  /** The kept keys are those of `a` not in `b`, each as often as in `a`. */
  lemma {:induction false} WithoutSpec(a: seq<string>, b: seq<string>)
    ensures forall k :: k in Without(a, b) <==> k in a && k !in b
    ensures forall k :: multiset(Without(a, b))[k] == if k in b then 0 else multiset(a)[k]
  {
    if a != [] {
      WithoutSpec(a[1..], b);
      assert a == [a[0]] + a[1..];
    }
  }

  /** What the script reports for the three locale files. */
  datatype Comparison = Comparison(
    enKeys: seq<string>,
    frKeys: seq<string>,
    arKeys: seq<string>,
    missingInFr: seq<string>,
    missingInAr: seq<string>,
    extraInFr: seq<string>,
    extraInAr: seq<string>)

  /** The four lists, from the key lists (which the script sorts first; see `SortingKeepsVerdicts`). */
  function Compare(enKeys: seq<string>, frKeys: seq<string>, arKeys: seq<string>): (c: Comparison)
    ensures forall k :: k in c.missingInFr <==> k in enKeys && k !in frKeys
    ensures forall k :: k in c.missingInAr <==> k in enKeys && k !in arKeys
    ensures forall k :: k in c.extraInFr <==> k in frKeys && k !in enKeys
    ensures forall k :: k in c.extraInAr <==> k in arKeys && k !in enKeys
  {
    WithoutSpec(enKeys, frKeys);
    WithoutSpec(enKeys, arKeys);
    WithoutSpec(frKeys, enKeys);
    WithoutSpec(arKeys, enKeys);
    Comparison(enKeys, frKeys, arKeys,
      Without(enKeys, frKeys), Without(enKeys, arKeys),
      Without(frKeys, enKeys), Without(arKeys, enKeys))
  }

  /** "All translation files are perfectly synchronized": the four lists are empty. */
  predicate Synchronized(c: Comparison)
  {
    c.missingInFr == [] && c.missingInAr == [] && c.extraInFr == [] && c.extraInAr == []
  }

  /** A missing key is not in the other file, and an extra key is not in English. */
  lemma MissingAndExtraAreDisjoint(enKeys: seq<string>, frKeys: seq<string>, arKeys: seq<string>)
    ensures var c := Compare(enKeys, frKeys, arKeys);
      (forall k :: k in c.missingInFr ==> k !in frKeys && k !in c.extraInFr) &&
      (forall k :: k in c.missingInAr ==> k !in arKeys && k !in c.extraInAr) &&
      (forall k :: k in c.extraInFr ==> k !in enKeys) &&
      (forall k :: k in c.extraInAr ==> k !in enKeys)
  {
    var c := Compare(enKeys, frKeys, arKeys);
    forall k | k in c.missingInFr ensures k !in c.extraInFr {
      assert k in enKeys;
    }
    forall k | k in c.missingInAr ensures k !in c.extraInAr {
      assert k in enKeys;
    }
  }

  function KeySet(keys: seq<string>): set<string>
  {
    set k | k in keys
  }

  /** Nothing is left of `a` exactly when every key of `a` is in `b`. */
  lemma NothingLeftIffCovered(a: seq<string>, b: seq<string>)
    ensures Without(a, b) == [] <==> KeySet(a) <= KeySet(b)
  {
    WithoutSpec(a, b);
    if Without(a, b) != [] {
      var k := Without(a, b)[0];
      assert k in KeySet(a) && k !in KeySet(b);
    } else {
      forall k | k in KeySet(a) ensures k in KeySet(b) {
        assert k !in Without(a, b);
      }
    }
  }

  /** The files are reported synchronized exactly when the three sets of paths are equal. */
  lemma SynchronizedIffSameKeys(enKeys: seq<string>, frKeys: seq<string>, arKeys: seq<string>)
    ensures Synchronized(Compare(enKeys, frKeys, arKeys)) <==>
      KeySet(enKeys) == KeySet(frKeys) && KeySet(enKeys) == KeySet(arKeys)
  {
    NothingLeftIffCovered(enKeys, frKeys);
    NothingLeftIffCovered(enKeys, arKeys);
    NothingLeftIffCovered(frKeys, enKeys);
    NothingLeftIffCovered(arKeys, enKeys);
  }

  /**
   * Sorting the key lists first changes no count and no membership: any reordering of the
   * lists gives each missing or extra list the same keys, as often.
   */
  lemma SortingKeepsVerdicts(a: seq<string>, b: seq<string>, a': seq<string>, b': seq<string>)
    requires multiset(a') == multiset(a) && multiset(b') == multiset(b)
    ensures multiset(Without(a', b')) == multiset(Without(a, b))
    ensures |Without(a', b')| == |Without(a, b)|
  {
    WithoutSpec(a, b);
    WithoutSpec(a', b');
    forall k ensures multiset(Without(a', b'))[k] == multiset(Without(a, b))[k] {
      assert k in b' <==> k in multiset(b');
      assert k in b <==> k in multiset(b);
    }
    assert multiset(Without(a', b')) == multiset(Without(a, b));
    assert |multiset(Without(a', b'))| == |multiset(Without(a, b))|;
  }
}
