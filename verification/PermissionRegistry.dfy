/** The registry of permission keys: sorted listing, grouping by category, and how the groups relate to
    the sorted list and to wildcard patterns. */
module PermissionRegistry {
  import opened GoStrings
  import opened AuthModel

  /** The part before the first dot, if there is one and it is not empty. */
  function Category(permission: string): string {
    var idx := Index(permission, '.');
    if idx > 0 then permission[..idx] else "unknown"
  }

  datatype Group = Group(name: string, permissions: seq<string>)

  function GroupNames(groups: seq<Group>): seq<string> {
    seq(|groups|, i requires 0 <= i < |groups| => groups[i].name)
  }

  function Members(keys: set<string>, category: string): set<string> {
    set k | k in keys && Category(k) == category
  }

  /** The grouping of the keys: categories in order, each with its keys in order. */
  ghost predicate Grouping(keys: set<string>, groups: seq<Group>) {
    && StrictlySorted(GroupNames(groups))
    && Elements(GroupNames(groups)) == (set k | k in keys :: Category(k))
    && (forall i :: 0 <= i < |groups| ==>
          StrictlySorted(groups[i].permissions) && Elements(groups[i].permissions) == Members(keys, groups[i].name))
  }

  ghost predicate Listing(keys: set<string>, all: seq<string>) {
    StrictlySorted(all) && Elements(all) == keys
  }

  class Registry {
    var registered: map<string, string>

    constructor ()
      ensures registered == map[]
    {
      registered := map[];
    }

    method RegisterPermission(key: string, description: string)
      modifies this
      ensures registered == old(registered)[key := description]
    {
      registered := registered[key := description];
    }

    method AllPermissions() returns (keys: seq<string>)
      ensures Listing(registered.Keys, keys)
    {
      keys := SortedKeys(registered.Keys);
    }

    method PermissionGroups() returns (groups: seq<Group>)
      ensures Grouping(registered.Keys, groups)
    {
      var perms := registered.Keys;
      var catSet: set<string> := {};
      var todo := perms;
      while todo != {}
        invariant todo <= perms
        invariant catSet == set k | k in perms - todo :: Category(k)
      {
        var k :| k in todo;
        todo := todo - {k};
        assert perms - todo == (perms - (todo + {k})) + {k};
        catSet := catSet + {Category(k)};
      }
      assert perms - todo == perms;
      var categories := SortedKeys(catSet);

      groups := [];
      for i := 0 to |categories|
        invariant GroupNames(groups) == categories[..i]
        invariant forall j :: 0 <= j < i ==>
          StrictlySorted(groups[j].permissions) && Elements(groups[j].permissions) == Members(perms, groups[j].name)
      {
        var members: set<string> := {};
        todo := perms;
        while todo != {}
          invariant todo <= perms
          invariant members == Members(perms - todo, categories[i])
        {
          var k :| k in todo;
          todo := todo - {k};
          if Category(k) == categories[i] {
            members := members + {k};
          }
        }
        assert perms - todo == perms;
        var sorted := SortedKeys(members);
        assert GroupNames(groups + [Group(categories[i], sorted)]) == categories[..i + 1];
        groups := groups + [Group(categories[i], sorted)];
      }
      assert categories[..|categories|] == categories;
    }
  }

  /******* The groups partition the keys *******/

  lemma CategoryHasGroup(keys: set<string>, groups: seq<Group>, k: string) returns (i: nat)
    requires Grouping(keys, groups) && k in keys
    ensures i < |groups| && groups[i].name == Category(k) && k in groups[i].permissions
  {
    assert Category(k) in Elements(GroupNames(groups));
    i :| 0 <= i < |groups| && GroupNames(groups)[i] == Category(k);
    assert k in Elements(groups[i].permissions);
  }

  /** Every key is in exactly one group, groups hold nothing else, and no group is empty. */
  lemma GroupsPartitionKeys(keys: set<string>, groups: seq<Group>)
    requires Grouping(keys, groups)
    ensures forall k :: k in keys <==> exists i :: 0 <= i < |groups| && k in groups[i].permissions
    ensures forall i, j, k | 0 <= i < |groups| && 0 <= j < |groups| ::
      k in groups[i].permissions && k in groups[j].permissions ==> i == j
    ensures forall i :: 0 <= i < |groups| ==> groups[i].permissions != []
  {
    forall k | k in keys ensures exists i :: 0 <= i < |groups| && k in groups[i].permissions {
      var i := CategoryHasGroup(keys, groups, k);
    }
    forall i, k | 0 <= i < |groups| && k in groups[i].permissions
      ensures k in keys && Category(k) == groups[i].name
    {
      assert k in Elements(groups[i].permissions);
    }
    forall i, j, k | 0 <= i < |groups| && 0 <= j < |groups| && k in groups[i].permissions && k in groups[j].permissions
      ensures i == j
    {
      assert Category(k) == groups[i].name == groups[j].name;
      assert i < j ==> Lt(GroupNames(groups)[i], GroupNames(groups)[j]);
      assert j < i ==> Lt(GroupNames(groups)[j], GroupNames(groups)[i]);
    }
    forall i | 0 <= i < |groups| ensures groups[i].permissions != [] {
      assert GroupNames(groups)[i] in Elements(GroupNames(groups));
      var k :| k in keys && Category(k) == groups[i].name;
      assert k in Elements(groups[i].permissions);
    }
  }

  /******* Concatenating the groups *******/

  function Concat(groups: seq<Group>): seq<string> {
    if groups == [] then [] else Concat(groups[..|groups| - 1]) + groups[|groups| - 1].permissions
  }

  /** Sorting the keys never separates or reorders categories. */
  ghost predicate CategoriesMonotone(keys: set<string>) {
    forall a, b :: a in keys && b in keys && Lt(a, b) ==> Le(Category(a), Category(b))
  }

  lemma {:induction false} ConcatElements(groups: seq<Group>, k: string)
    ensures k in Concat(groups) <==> exists i :: 0 <= i < |groups| && k in groups[i].permissions
  {
    if groups != [] {
      var front := groups[..|groups| - 1];
      ConcatElements(front, k);
      assert forall i :: 0 <= i < |front| ==> front[i] == groups[i];
    }
  }

  lemma {:induction false} ConcatSorted(groups: seq<Group>)
    requires forall i :: 0 <= i < |groups| ==> StrictlySorted(groups[i].permissions)
    requires forall i, j, a, b | 0 <= i < j < |groups| ::
      a in groups[i].permissions && b in groups[j].permissions ==> Lt(a, b)
    ensures StrictlySorted(Concat(groups))
  {
    if groups != [] {
      var front, last := groups[..|groups| - 1], groups[|groups| - 1].permissions;
      ConcatSorted(front);
      forall a, b | a in Concat(front) && b in last ensures Lt(a, b) {
        ConcatElements(front, a);
      }
      var c := Concat(front);
      forall i, j | 0 <= i < j < |c + last| ensures Lt((c + last)[i], (c + last)[j]) {
        if i < |c| <= j {
          assert c[i] in c && last[j - |c|] in last;
        }
      }
    }
  }

  /** A key of an earlier group comes first in the concatenation. */
  lemma {:induction false} ConcatOrder(groups: seq<Group>, i: nat, j: nat, a: string, b: string)
    returns (x: nat, y: nat)
    requires i < j < |groups| && a in groups[i].permissions && b in groups[j].permissions
    ensures x < y < |Concat(groups)| && Concat(groups)[x] == a && Concat(groups)[y] == b
  {
    var n := |groups| - 1;
    var c := Concat(groups[..n]);
    if j == n {
      assert groups[..n][i] == groups[i];
      ConcatElements(groups[..n], a);
      x :| 0 <= x < |c| && c[x] == a;
      var z :| 0 <= z < |groups[n].permissions| && groups[n].permissions[z] == b;
      y := |c| + z;
    } else {
      x, y := ConcatOrder(groups[..n], i, j, a, b);
    }
  }

  lemma GroupIndexOrder(groups: seq<Group>, i: nat, j: nat)
    requires StrictlySorted(GroupNames(groups)) && i < |groups| && j < |groups|
    ensures Lt(groups[i].name, groups[j].name) <==> i < j
  {
    assert GroupNames(groups)[i] == groups[i].name && GroupNames(groups)[j] == groups[j].name;
    if i > j {
      LtAsymmetric(groups[j].name, groups[i].name);
    }
  }

  lemma ConcatIsListingIffMonotone(keys: set<string>, groups: seq<Group>, all: seq<string>)
    requires Grouping(keys, groups) && Listing(keys, all)
    ensures Concat(groups) == all <==> CategoriesMonotone(keys)
  {
    GroupsPartitionKeys(keys, groups);
    if CategoriesMonotone(keys) {
      MonotoneConcatSorted(keys, groups);
      forall k ensures k in Elements(Concat(groups)) <==> k in Elements(all) {
        ConcatElements(groups, k);
      }
      StrictlySortedUnique(Concat(groups), all);
    }
    if Concat(groups) == all {
      forall a, b | a in keys && b in keys && Lt(a, b) ensures Le(Category(a), Category(b)) {
        var i := CategoryHasGroup(keys, groups, a);
        var j := CategoryHasGroup(keys, groups, b);
        LeTotal(Category(a), Category(b));
        if Lt(Category(b), Category(a)) {
          GroupIndexOrder(groups, j, i);
          var x, y := ConcatOrder(groups, j, i, b, a);
          assert Lt(all[x], all[y]);
          LtAsymmetric(a, b);
        }
      }
    }
  }

  lemma MonotoneConcatSorted(keys: set<string>, groups: seq<Group>)
    requires Grouping(keys, groups) && CategoriesMonotone(keys)
    ensures StrictlySorted(Concat(groups))
  {
    forall i, j, a, b | 0 <= i < j < |groups| && a in groups[i].permissions && b in groups[j].permissions
      ensures Lt(a, b)
    {
      EarlierGroupFirst(keys, groups, i, j, a, b);
    }
    ConcatSorted(groups);
  }

  lemma EarlierGroupFirst(keys: set<string>, groups: seq<Group>, i: nat, j: nat, a: string, b: string)
    requires Grouping(keys, groups) && CategoriesMonotone(keys)
    requires i < j < |groups| && a in groups[i].permissions && b in groups[j].permissions
    ensures Lt(a, b)
  {
    assert a in Elements(groups[i].permissions) && b in Elements(groups[j].permissions);
    GroupIndexOrder(groups, i, j);
    LtAsymmetric(groups[i].name, groups[j].name);
    LeTotal(a, b);
  }

  /******* The same condition on names *******/

  predicate HasCategory(k: string) {
    Index(k, '.') > 0
  }

  /** The category of b, continued by a character below the dot, begins the category of a: then a sorts before
      b and its category after. */
  predicate CutsBefore(a: string, b: string) {
    && HasCategory(a) && HasCategory(b)
    && Category(b) < Category(a) && Category(a)[|Category(b)|] < '.'
  }

  /** A key without a category, which goes to "unknown", lies on the other side of b than "unknown" does of b's
      category. */
  predicate Strays(a: string, b: string) {
    && !HasCategory(a) && HasCategory(b) && Category(b) != "unknown"
    && (Lt(a, b) <==> Lt(Category(b), "unknown"))
  }

  ghost predicate NamesInOrder(keys: set<string>) {
    forall a, b :: a in keys && b in keys ==> !CutsBefore(a, b) && !Strays(a, b)
  }

  lemma CategoryShape(k: string)
    requires HasCategory(k)
    ensures var c := Category(k);
      |c| < |k| && c == k[..|c|] && k[|c|] == '.' && forall i :: 0 <= i < |c| ==> k[i] != '.'
  {
    var c := Category(k);
    assert forall i :: 0 <= i < |c| ==> k[i] == c[i];
  }

  lemma EqualUpTo(a: string, b: string, n: nat)
    requires n <= |a| && n <= |b| && a[..n] == b[..n]
    ensures forall i :: 0 <= i < n ==> a[i] == b[i]
  {
    assert forall i :: 0 <= i < n ==> a[i] == a[..n][i] && b[i] == b[..n][i];
  }

  /** Of two keys in order that both have a category, the categories are in order too unless the first cuts
      before the second. */
  lemma CategoryOrder(a: string, b: string)
    requires HasCategory(a) && HasCategory(b) && Lt(a, b)
    ensures Le(Category(a), Category(b)) <==> !CutsBefore(a, b)
  {
    var ca, cb := Category(a), Category(b);
    var p, q := |ca|, |cb|;
    CategoryShape(a);
    CategoryShape(b);
    var i := DifferenceOf(a, b);
    EqualUpTo(a, b, i);
    if i < p && i < q {
      assert ca[..i] == a[..i] && cb[..i] == b[..i];
      LtAtDifference(ca, cb, i);
      assert !(cb < ca) by { assert ca[i] != cb[i]; }
    } else if i < p {
      assert i == q && cb == ca[..q];
      LtAtDifference(cb, ca, q);
      LtAsymmetric(cb, ca);
    } else if p < q {
      assert i == p && ca == cb[..p];
      LtAtDifference(ca, cb, p);
    } else {
      assert p == q && ca == cb;
      LeReflexive(ca);
    }
  }

  /** A key that cuts before another sorts before it. */
  lemma CutSortsFirst(a: string, b: string)
    requires CutsBefore(a, b)
    ensures Lt(a, b)
  {
    var q := |Category(b)|;
    CategoryShape(a);
    CategoryShape(b);
    assert a[..q] == Category(a)[..q] == Category(b) == b[..q];
    assert a[q] == Category(a)[q];
    LtAtDifference(a, b, q);
  }

  lemma LtTotal(a: string, b: string)
    requires a != b
    ensures Lt(a, b) <==> !Lt(b, a)
    ensures Le(a, b) <==> Lt(a, b)
  {
    LeTotal(a, b);
    if Lt(a, b) {
      LtAsymmetric(a, b);
    }
  }

  /** Two different keys have their categories in the order of the keys exactly when neither cuts
      before or strays from the other. */
  lemma PairInOrderIff(a: string, b: string)
    requires Lt(a, b)
    ensures Le(Category(a), Category(b)) <==> !CutsBefore(a, b) && !Strays(a, b) && !Strays(b, a)
  {
    LtTotal(a, b);
    if HasCategory(a) && HasCategory(b) {
      CategoryOrder(a, b);
    } else {
      LeReflexive("unknown");
      if Category(a) != Category(b) {
        LtTotal(Category(a), Category(b));
      }
    }
  }

  lemma MonotoneIffNamesInOrder(keys: set<string>)
    ensures CategoriesMonotone(keys) <==> NamesInOrder(keys)
  {
    forall a, b | a in keys && b in keys && Lt(a, b)
      ensures Le(Category(a), Category(b)) <==> !CutsBefore(a, b) && !Strays(a, b) && !Strays(b, a)
    {
      PairInOrderIff(a, b);
    }
    if CategoriesMonotone(keys) {
      forall a, b | a in keys && b in keys ensures !CutsBefore(a, b) && !Strays(a, b) {
        if CutsBefore(a, b) {
          CutSortsFirst(a, b);
        } else if Strays(a, b) {
          LtTotal(a, b);
        }
      }
    }
  }

  /** The groups, one after the other, are the sorted list of all permissions exactly when no category,
      continued by a character below the dot, begins another, and every key without a category sorts among the
      others as "unknown" sorts among their categories. */
  lemma ConcatIsListingIff(keys: set<string>, groups: seq<Group>, all: seq<string>)
    requires Grouping(keys, groups) && Listing(keys, all)
    ensures Concat(groups) == all <==> NamesInOrder(keys)
  {
    ConcatIsListingIffMonotone(keys, groups, all);
    MonotoneIffNamesInOrder(keys);
  }

  /** A dot after a non-empty category, all of whose characters sort after the dot. */
  predicate WellNamed(k: string) {
    var idx := Index(k, '.');
    idx > 0 && forall i :: 0 <= i < idx ==> '.' < k[i]
  }

  /** For well-named keys the concatenated groups are the sorted list. */
  lemma WellNamedGroupsConcatenate(keys: set<string>, groups: seq<Group>, all: seq<string>)
    requires Grouping(keys, groups) && Listing(keys, all) && forall k :: k in keys ==> WellNamed(k)
    ensures Concat(groups) == all
  {
    forall a, b | a in keys && b in keys ensures !CutsBefore(a, b) && !Strays(a, b) {
      CategoryShape(a);
      assert forall i :: 0 <= i < |Category(a)| ==> Category(a)[i] == a[i];
    }
    ConcatIsListingIff(keys, groups, all);
  }

  /** A hyphen sorts before the dot: "a-b.x" comes before "a.x", its category after. */
  lemma HyphenBreaksConcatenation(groups: seq<Group>, all: seq<string>)
    requires Grouping({"a.x", "a-b.x"}, groups) && Listing({"a.x", "a-b.x"}, all)
    ensures Concat(groups) != all
  {
    var u, v := "a-b.x", "a.x";
    assert Index(u, '.') == 3 && Index(v, '.') == 1;
    assert u[..3] == "a-b" && v[..1] == "a";
    assert "a" <= "a-b" && CutsBefore(u, v);
    ConcatIsListingIff({v, u}, groups, all);
  }

  /******* Groups and wildcard patterns *******/

  function Matched(keys: set<string>, pattern: string): set<string> {
    set k | k in keys && MatchesPattern(k, pattern)
  }

  lemma CategoryPattern(k: string, name: string)
    requires name != [] && '.' !in name
    ensures MatchesPattern(k, name + ".*") <==> Index(k, '.') > 0 && Category(k) == name
  {
    var pattern := name + ".*";
    assert pattern[|pattern| - 2..] == ".*" && pattern[..|pattern| - 2] == name;
    var idx := Index(k, '.');
    if HasPrefix(k, name + ".") {
      assert (name + ".")[|name|] == '.' && k[|name|] == '.' && k[..|name|] == name;
      assert idx == |name| by {
        assert forall i :: 0 <= i < |name| ==> k[i] == name[i];
        assert k[..idx] <= k;
      }
    }
    if idx > 0 && Category(k) == name {
      assert k[..|name| + 1] == name + ".";
    }
    if k == pattern {
      assert HasPrefix(k, name + ".");
    }
  }

  lemma GroupNamesArePlain(keys: set<string>, groups: seq<Group>, i: nat)
    requires Grouping(keys, groups) && i < |groups|
    ensures groups[i].name != [] && '.' !in groups[i].name
  {
    assert GroupNames(groups)[i] in Elements(GroupNames(groups));
    var origin :| origin in keys && Category(origin) == groups[i].name;
    if Index(origin, '.') <= 0 {
      assert '.' !in "unknown";
    }
  }

  /** What "name.*" matches: the members of the category that really have it as their first part. */
  lemma MatchedMeaning(keys: set<string>, name: string)
    requires name != [] && '.' !in name
    ensures Matched(keys, name + ".*") == set k | k in Members(keys, name) && Index(k, '.') > 0
  {
    forall k ensures k in Matched(keys, name + ".*") <==> k in Members(keys, name) && Index(k, '.') > 0 {
      CategoryPattern(k, name);
    }
  }

  lemma MembersWithoutCategory(keys: set<string>, name: string)
    ensures (forall k :: k in Members(keys, name) ==> Index(k, '.') > 0)
       <==> !(name == "unknown" && exists k :: k in keys && Index(k, '.') <= 0)
  {
  }

  /** The keys matched by "name.*" are exactly the group of that name, unless the group is "unknown" and
      holds a key without a category: such a key is in the group but matches no "unknown.*". */
  lemma WildcardIsGroupIff(keys: set<string>, groups: seq<Group>, i: nat)
    requires Grouping(keys, groups) && i < |groups|
    ensures Matched(keys, groups[i].name + ".*") == Elements(groups[i].permissions)
       <==> !(groups[i].name == "unknown" && exists k :: k in keys && Index(k, '.') <= 0)
  {
    var members := Members(keys, groups[i].name);
    GroupNamesArePlain(keys, groups, i);
    MatchedMeaning(keys, groups[i].name);
    MembersWithoutCategory(keys, groups[i].name);
    assert Elements(groups[i].permissions) == members;
    assert (set k | k in members && Index(k, '.') > 0) == members <==> forall k :: k in members ==> Index(k, '.') > 0;
  }
}
