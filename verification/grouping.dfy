/**
  How the differ sees the children of one node: a name-keyed map filled
  child by child with `put` (so a later same-named sibling replaces an
  earlier one), and the order in which the keys of such a map are visited.

  Java leaves the visiting order of a `HashMap` unspecified. For a map of
  string keys filled by `put` alone, the order is decided by the distinct
  keys in the order they were first put: putting a key that is already
  present replaces its value and moves nothing. The order is therefore
  modelled as an arbitrary function of that key list, and every property
  of the differ is proved for every such function.
 */
module Grouping {
  import opened XmlTree

  /**
    Chooses the visiting order of a map from its keys in first-insertion
    order. The result is a list of choices: the next key visited is the
    one at index `choice % |remaining|` among the keys not yet visited
    (a choice list that runs out means index 0). `ChoicesFor` shows that
    every permutation of every key list arises this way.
   */
  type KeyOrder = seq<string> -> seq<nat>

  /** No element occurs twice. */
  ghost predicate Distinct(s: seq<string>) {
    forall x :: multiset(s)[x] <= 1
  }

  lemma DistinctSplit(s: seq<string>)
    requires Distinct(s) && |s| > 0
    ensures s[0] !in s[1..] && Distinct(s[1..])
  {
    assert s == [s[0]] + s[1..];
    assert multiset(s) == multiset{s[0]} + multiset(s[1..]);
    assert multiset(s)[s[0]] == 1 + multiset(s[1..])[s[0]];
    forall x
      ensures multiset(s[1..])[x] <= 1
    {
      assert multiset(s)[x] >= multiset(s[1..])[x];
    }
  }

  /** Two duplicate-free sequences with the same elements are permutations of each other. */
  lemma DistinctSameElements(s1: seq<string>, s2: seq<string>)
    requires Distinct(s1) && Distinct(s2)
    requires forall x :: x in s1 <==> x in s2
    ensures multiset(s1) == multiset(s2)
  {
    forall x
      ensures multiset(s1)[x] == multiset(s2)[x]
    {
      assert x in s1 <==> x in multiset(s1);
      assert x in s2 <==> x in multiset(s2);
    }
  }

  /** The tag names occurring among `cs`. */
  function NameSet(cs: seq<XmlNode>): set<string> {
    set c | c in cs :: c.name
  }

  /** Index of the last child named `n`, or -1 when there is none. */
  function LastIndex(cs: seq<XmlNode>, n: string): (r: int)
    ensures -1 <= r < |cs|
    ensures r >= 0 ==> cs[r].name == n && forall k | r < k < |cs| :: cs[k].name != n
    ensures r < 0 ==> forall k | 0 <= k < |cs| :: cs[k].name != n
    decreases |cs|
  {
    if |cs| == 0 then -1
    else if cs[|cs| - 1].name == n then |cs| - 1
    else LastIndex(cs[..|cs| - 1], n)
  }

  /** The index characterised by `LastIndex`'s contract is unique. */
  lemma LastIndexIs(cs: seq<XmlNode>, n: string, r: int)
    requires 0 <= r < |cs| && cs[r].name == n
    requires forall k | r < k < |cs| :: cs[k].name != n
    ensures LastIndex(cs, n) == r
  {
  }

  /**
    The map `name -> child` built by putting the children one after the
    other into an empty map.
   */
  function Group(cs: seq<XmlNode>): (m: map<string, XmlNode>)
    ensures forall n | n in m :: m[n] in cs && m[n].name == n
    decreases |cs|
  {
    if |cs| == 0 then map[]
    else
      var last := cs[|cs| - 1];
      Group(cs[..|cs| - 1])[last.name := last]
  }

  /** Putting one more child into the map built from a prefix of the children. */
  lemma GroupStep(cs: seq<XmlNode>, i: nat)
    requires i < |cs|
    ensures Group(cs[..i + 1]) == Group(cs[..i])[cs[i].name := cs[i]]
  {
    assert cs[..i + 1][..i] == cs[..i];
  }

  /**
    The keys of `Group(cs)` are exactly the children's names, and each
    name maps to the LAST child bearing it: an earlier same-named sibling
    is overwritten.
   */
  lemma {:induction false} GroupKeepsLastSibling(cs: seq<XmlNode>)
    ensures Group(cs).Keys == NameSet(cs)
    ensures forall n :: n in Group(cs) <==> LastIndex(cs, n) >= 0
    ensures forall n | n in Group(cs) :: Group(cs)[n] == cs[LastIndex(cs, n)]
    decreases |cs|
  {
    if |cs| > 0 {
      var init := cs[..|cs| - 1];
      var last := cs[|cs| - 1];
      GroupKeepsLastSibling(init);
      assert cs == init + [last];
      assert NameSet(cs) == NameSet(init) + {last.name};
    }
  }

  /** Where the last child named `n` ends up once child `i` is dropped. */
  lemma ShadowedLastIndex(cs: seq<XmlNode>, i: nat, j: nat, n: string)
    requires i < j < |cs| && cs[i].name == cs[j].name
    ensures var short := cs[..i] + cs[i + 1..];
            var m := LastIndex(cs, n);
            (m >= 0 ==> LastIndex(short, n) >= 0 && short[LastIndex(short, n)] == cs[m])
            && (m < 0 ==> LastIndex(short, n) < 0)
  {
    var short := cs[..i] + cs[i + 1..];
    assert |short| == |cs| - 1;
    assert forall k | 0 <= k < i :: short[k] == cs[k];
    assert forall k | i <= k < |short| :: short[k] == cs[k + 1];
    var m := LastIndex(cs, n);
    if m >= 0 {
      assert m != i;
      var m' := if m < i then m else m - 1;
      assert short[m'] == cs[m];
      LastIndexIs(short, n, m');
    } else {
      assert forall k | 0 <= k < |short| :: short[k].name != n;
    }
  }

  /** Dropping a child that a later same-named sibling shadows leaves the map unchanged. */
  lemma ShadowedSiblingIsInvisible(cs: seq<XmlNode>, i: nat, j: nat)
    requires i < j < |cs| && cs[i].name == cs[j].name
    ensures Group(cs[..i] + cs[i + 1..]) == Group(cs)
  {
    var a, b := Group(cs[..i] + cs[i + 1..]), Group(cs);
    GroupKeepsLastSibling(cs[..i] + cs[i + 1..]);
    GroupKeepsLastSibling(cs);
    forall n
      ensures (n in a <==> n in b) && (n in b ==> a[n] == b[n])
    {
      ShadowedLastIndex(cs, i, j, n);
    }
    assert a.Keys == b.Keys;
  }

  /**
    The distinct names of `cs` in the order they first occur: the order in
    which `put` adds the keys to the map.
   */
  function InsertionOrder(cs: seq<XmlNode>): (ks: seq<string>)
    ensures Distinct(ks)
    ensures forall n :: n in ks <==> n in NameSet(cs)
    decreases |cs|
  {
    if |cs| == 0 then []
    else
      var init, last := cs[..|cs| - 1], cs[|cs| - 1];
      var ks := InsertionOrder(init);
      assert cs == init + [last];
      assert NameSet(cs) == NameSet(init) + {last.name};
      if last.name in ks then ks
      else
        assert multiset(ks + [last.name]) == multiset(ks) + multiset{last.name};
        assert last.name !in multiset(ks);
        ks + [last.name]
  }

  /**
    The keys put by a prefix of the children come first, in the same
    order: a later child never moves a key already put.
   */
  lemma {:induction false} InsertionOrderOfPrefix(cs: seq<XmlNode>, i: nat)
    requires i <= |cs|
    ensures InsertionOrder(cs[..i]) <= InsertionOrder(cs)
    decreases |cs| - i
  {
    if i < |cs| {
      InsertionOrderOfPrefix(cs, i + 1);
      assert cs[..i + 1][..i] == cs[..i];
    } else {
      assert cs[..i] == cs;
    }
  }

  /** The keys in the order the choices pick them: a permutation of `keys`. */
  function Pick(keys: seq<string>, choices: seq<nat>): (r: seq<string>)
    ensures multiset(r) == multiset(keys)
    decreases |keys|
  {
    if |keys| == 0 then []
    else
      var i := (if |choices| == 0 then 0 else choices[0]) % |keys|;
      assert keys == keys[..i] + [keys[i]] + keys[i + 1..];
      [keys[i]] + Pick(keys[..i] + keys[i + 1..], if |choices| == 0 then [] else choices[1..])
  }

  /** Two sequences holding the same elements, each as often, still do so without one occurrence of `k1[0]`. */
  lemma DropFirstOccurrence(k1: seq<string>, k2: seq<string>) returns (i: nat)
    requires multiset(k1) == multiset(k2) && |k1| > 0
    ensures i < |k2| && k2[i] == k1[0]
    ensures multiset(k1[1..]) == multiset(k2[..i] + k2[i + 1..])
  {
    assert k1[0] in multiset(k2);
    i :| 0 <= i < |k2| && k2[i] == k1[0];
    assert k2 == k2[..i] + [k2[i]] + k2[i + 1..];
    assert multiset(k2) == multiset(k2[..i]) + multiset{k1[0]} + multiset(k2[i + 1..]);
    assert k1 == [k1[0]] + k1[1..];
    assert multiset(k1) == multiset{k1[0]} + multiset(k1[1..]);
    var rest := k2[..i] + k2[i + 1..];
    assert multiset(rest) == multiset(k2[..i]) + multiset(k2[i + 1..]);
    forall y
      ensures multiset(k1[1..])[y] == multiset(rest)[y]
    {
      assert multiset(k1)[y] == multiset(k2)[y];
    }
  }

  lemma SmallRemainder(i: nat, n: nat)
    requires i < n
    ensures i % n == i
  {
  }

  /** Every permutation `target` of `keys` is picked by some list of choices. */
  lemma {:induction false} ChoicesFor(keys: seq<string>, target: seq<string>) returns (choices: seq<nat>)
    requires multiset(target) == multiset(keys)
    ensures Pick(keys, choices) == target
    decreases |keys|
  {
    if |keys| == 0 {
      assert |target| == |multiset(target)| == 0;
      choices := [];
    } else {
      assert |target| == |multiset(target)| == |multiset(keys)| == |keys|;
      var i := DropFirstOccurrence(target, keys);
      var others := keys[..i] + keys[i + 1..];
      var rest := ChoicesFor(others, target[1..]);
      choices := [i] + rest;
      assert choices[0] % |keys| == i by {
        SmallRemainder(i, |keys|);
      }
      assert choices[1..] == rest;
      assert Pick(keys, choices) == [keys[i]] + Pick(others, rest);
      assert [target[0]] + target[1..] == target;
    }
  }

  /** The order in which the map `Group(cs)` hands out its keys. */
  function KeyIteration(cs: seq<XmlNode>, ord: KeyOrder): (ks: seq<string>)
    ensures Distinct(ks)
    ensures forall n :: n in ks <==> n in Group(cs)
  {
    var keys := InsertionOrder(cs);
    var ks := Pick(keys, ord(keys));
    GroupKeepsLastSibling(cs);
    assert forall n :: n in ks <==> n in multiset(ks);
    assert forall n :: n in keys <==> n in multiset(keys);
    ks
  }

  /** Two key orders visit the same keys, each exactly once. */
  lemma KeyIterationsArePermutations(cs: seq<XmlNode>, ord1: KeyOrder, ord2: KeyOrder)
    ensures multiset(KeyIteration(cs, ord1)) == multiset(KeyIteration(cs, ord2))
  {
  }
}
