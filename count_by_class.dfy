/**
  The `Characters/CharacterCountByClass` map/reduce index.

  Map emits `{ ClassName = character.Class.Name, Count = 1 }` per character.
  Reduce groups the tuples by `ClassName` and sums `Count` within each group,
  returning tuples of the same shape, so the store may reduce again any mix of
  mapped and already reduced tuples. Groups come out in the order in which
  their key first appears, as LINQ's `group ... by` yields them.
 */
module CharacterCountByClass {
  import opened Wrappers
  import opened Characters

  /** `ReduceResult { ClassName, Count }`: both the map output and the reduce output. */
  datatype ReduceResult = ReduceResult(className: string, count: int)

  /** `new ReduceResult()`: what the class-count query falls back to when no tuple matches. */
  const DefaultResult := ReduceResult("", 0)

  // ---------------------------------------------------------------- map

  /** The tuple the map emits for one character. */
  function Emit(c: Character): ReduceResult
  {
    ReduceResult(c.characterClass.name, 1)
  }

  /** The map step: one tuple per character, in input order. */
  function Map(cs: seq<Character>): (r: seq<ReduceResult>)
    ensures |r| == |cs|
    ensures forall i :: 0 <= i < |cs| ==> r[i].className == cs[i].characterClass.name && r[i].count == 1
  {
    if cs == [] then [] else [Emit(cs[0])] + Map(cs[1..])
  }

  // ---------------------------------------------------------------- reduce

  /** The `ClassName` of every tuple, in order. */
  function ClassNames(rs: seq<ReduceResult>): (ks: seq<string>)
    ensures |ks| == |rs|
    ensures forall i :: 0 <= i < |rs| ==> ks[i] == rs[i].className
  {
    if rs == [] then [] else [rs[0].className] + ClassNames(rs[1..])
  }

  /** No key occurs twice. */
  predicate Distinct(ks: seq<string>)
  {
    forall i, j :: 0 <= i < j < |ks| ==> ks[i] != ks[j]
  }

  /** `seen`, extended with `k` unless it is there already. */
  function AddKey(seen: seq<string>, k: string): seq<string>
  {
    if k in seen then seen else seen + [k]
  }

  /** `seen`, extended with the keys of `ks` it lacks, in order of first appearance. */
  function AddKeys(seen: seq<string>, ks: seq<string>): seq<string>
    decreases |ks|
  {
    if ks == [] then seen else AddKey(AddKeys(seen, ks[..|ks| - 1]), ks[|ks| - 1])
  }

  /** The keys of `group result by result.ClassName`, in order of first appearance. */
  function GroupKeys(rs: seq<ReduceResult>): seq<string>
  {
    AddKeys([], ClassNames(rs))
  }

  /** The group `g` of key `k`: the tuples whose `ClassName` is `k`, in order. */
  function GroupOf(rs: seq<ReduceResult>, k: string): seq<ReduceResult>
  {
    if rs == [] then []
    else (if rs[0].className == k then [rs[0]] else []) + GroupOf(rs[1..], k)
  }

  /** `g.Sum(x => x.Count)`. */
  function Sum(g: seq<ReduceResult>): int
  {
    if g == [] then 0 else g[0].count + Sum(g[1..])
  }

  /** The contribution of one tuple to the sum of key `k`. */
  function Share(r: ReduceResult, k: string): int
  {
    if r.className == k then r.count else 0
  }

  /** `select new { ClassName = g.Key, Count = g.Sum(x => x.Count) }` for each key of `ks`. */
  function Groups(ks: seq<string>, rs: seq<ReduceResult>): (r: seq<ReduceResult>)
    ensures |r| == |ks|
    ensures forall i :: 0 <= i < |ks| ==> r[i].className == ks[i] && r[i].count == Sum(GroupOf(rs, ks[i]))
  {
    if ks == [] then [] else [ReduceResult(ks[0], Sum(GroupOf(rs, ks[0])))] + Groups(ks[1..], rs)
  }

  /**
    The reduce step: one tuple per class name of the input, in order of first
    appearance, each carrying the sum of the counts of its class.
   */
  function Reduce(rs: seq<ReduceResult>): (r: seq<ReduceResult>)
    ensures ClassNames(r) == GroupKeys(rs)
    ensures Distinct(ClassNames(r))
    ensures forall k :: k in ClassNames(r) <==> k in ClassNames(rs)
    ensures forall g :: g in r ==> g.count == Sum(GroupOf(rs, g.className))
  {
    AddKeysDistinct([], ClassNames(rs));
    AddKeysMembers([], ClassNames(rs));
    Groups(GroupKeys(rs), rs)
  }

  // ---------------------------------------------------------------- the class-count query

  /** `gs[i]` is the first tuple of class `name` in `gs`. */
  predicate IsFirstOfClass(gs: seq<ReduceResult>, i: int, name: string)
  {
    0 <= i < |gs| && gs[i].className == name && name !in ClassNames(gs[..i])
  }

  /** `FirstOrDefault(x => x.ClassName == name)`: the first tuple of that class, if any. */
  function FirstWithClass(gs: seq<ReduceResult>, name: string): (r: Option<ReduceResult>)
    ensures r.None? <==> name !in ClassNames(gs)
    ensures r.Some? ==> exists i :: IsFirstOfClass(gs, i, name) && gs[i] == r.value
  {
    if gs == [] then None
    else if gs[0].className == name then
      assert IsFirstOfClass(gs, 0, name) by { assert gs[..0] == []; }
      Some(gs[0])
    else
      var r := FirstWithClass(gs[1..], name);
      FirstOfClassShift(gs, name, r);
      r
  }

  /** A first match in `gs[1..]` is a first match in `gs` when `gs[0]` is of another class. */
  lemma FirstOfClassShift(gs: seq<ReduceResult>, name: string, r: Option<ReduceResult>)
    requires gs != [] && gs[0].className != name
    requires r.Some? ==> exists i :: IsFirstOfClass(gs[1..], i, name) && gs[1..][i] == r.value
    ensures r.Some? ==> exists i :: IsFirstOfClass(gs, i, name) && gs[i] == r.value
  {
    if r.Some? {
      var i :| IsFirstOfClass(gs[1..], i, name) && gs[1..][i] == r.value;
      assert gs[..i + 1] == [gs[0]] + gs[1..][..i];
      assert ClassNames(gs[..i + 1]) == [gs[0].className] + ClassNames(gs[1..][..i]);
      assert IsFirstOfClass(gs, i + 1, name);
    }
  }

  /**
    `FirstOrDefault(x => x.ClassName == name) ?? new ReduceResult()`: the first
    tuple of that class, or the default tuple, with count 0, when there is none.
   */
  function ClassCountOrDefault(gs: seq<ReduceResult>, name: string): (r: ReduceResult)
    ensures name !in ClassNames(gs) ==> r == DefaultResult && r.count == 0
    ensures name in ClassNames(gs) ==> exists i :: IsFirstOfClass(gs, i, name) && gs[i] == r
  {
    match FirstWithClass(gs, name)
    case Some(g) => g
    case None => DefaultResult
  }

  // ---------------------------------------------------------------- lemmas: keys

  lemma {:induction false} AddKeysMembers(seen: seq<string>, ks: seq<string>)
    ensures forall x :: x in AddKeys(seen, ks) <==> x in seen || x in ks
    decreases |ks|
  {
    if ks != [] {
      var init, last := ks[..|ks| - 1], ks[|ks| - 1];
      AddKeysMembers(seen, init);
      assert ks == init + [last];
    }
  }

  lemma {:induction false} AddKeysDistinct(seen: seq<string>, ks: seq<string>)
    requires Distinct(seen)
    ensures Distinct(AddKeys(seen, ks))
    decreases |ks|
  {
    if ks != [] {
      AddKeysDistinct(seen, ks[..|ks| - 1]);
    }
  }

  lemma {:induction false} AddKeysAppend(seen: seq<string>, ks1: seq<string>, ks2: seq<string>)
    ensures AddKeys(seen, ks1 + ks2) == AddKeys(AddKeys(seen, ks1), ks2)
    decreases |ks2|
  {
    if ks2 == [] {
      assert ks1 + ks2 == ks1;
    } else {
      var init := ks2[..|ks2| - 1];
      AddKeysAppend(seen, ks1, init);
      assert (ks1 + ks2)[..|ks1 + ks2| - 1] == ks1 + init;
    }
  }

  /** Adding the first appearances of `ks` adds the same keys as adding `ks` itself. */
  lemma {:induction false} AddKeysDedup(seen: seq<string>, ks: seq<string>)
    ensures AddKeys(seen, AddKeys([], ks)) == AddKeys(seen, ks)
    decreases |ks|
  {
    if ks != [] {
      var init, last := ks[..|ks| - 1], ks[|ks| - 1];
      var d := AddKeys([], init);
      AddKeysDedup(seen, init);
      AddKeysMembers([], init);
      AddKeysMembers(seen, init);
      if last !in d {
        assert (d + [last])[..|d + [last]| - 1] == d;
      }
    }
  }

  lemma ClassNamesConcat(a: seq<ReduceResult>, b: seq<ReduceResult>)
    ensures ClassNames(a + b) == ClassNames(a) + ClassNames(b)
  {
  }

  /**
    Reduce holds one tuple per key, and its keys are exactly the class names of
    its input.
   */
  lemma ReduceKeys(rs: seq<ReduceResult>)
    ensures ClassNames(Reduce(rs)) == GroupKeys(rs)
    ensures Distinct(ClassNames(Reduce(rs)))
    ensures forall k :: k in ClassNames(Reduce(rs)) <==> k in ClassNames(rs)
  {
  }

  // ---------------------------------------------------------------- lemmas: sums

  lemma {:induction false} GroupOfConcat(a: seq<ReduceResult>, b: seq<ReduceResult>, k: string)
    ensures GroupOf(a + b, k) == GroupOf(a, k) + GroupOf(b, k)
  {
    if a != [] {
      GroupOfConcat(a[1..], b, k);
      assert (a + b)[1..] == a[1..] + b;
    } else {
      assert a + b == b;
    }
  }

  lemma {:induction false} SumConcat(a: seq<ReduceResult>, b: seq<ReduceResult>)
    ensures Sum(a + b) == Sum(a) + Sum(b)
  {
    if a != [] {
      SumConcat(a[1..], b);
      assert (a + b)[1..] == a[1..] + b;
    } else {
      assert a + b == b;
    }
  }

  /** The per-key sum distributes over concatenation. */
  lemma GroupSumConcat(a: seq<ReduceResult>, b: seq<ReduceResult>, k: string)
    ensures Sum(GroupOf(a + b, k)) == Sum(GroupOf(a, k)) + Sum(GroupOf(b, k))
  {
    GroupOfConcat(a, b, k);
    SumConcat(GroupOf(a, k), GroupOf(b, k));
  }

  lemma {:induction false} GroupOfAbsent(rs: seq<ReduceResult>, k: string)
    requires k !in ClassNames(rs)
    ensures GroupOf(rs, k) == []
  {
    if rs != [] {
      assert ClassNames(rs)[1..] == ClassNames(rs[1..]);
      GroupOfAbsent(rs[1..], k);
    }
  }

  /** Summing one key over distinct-keyed groups picks out that key's group. */
  /** The per-key sum of a non-empty sequence: the head's share plus the sum of the rest. */
  lemma GroupSumHead(rs: seq<ReduceResult>, k: string)
    requires rs != []
    ensures Sum(GroupOf(rs, k)) == Share(rs[0], k) + Sum(GroupOf(rs[1..], k))
  {
    var head := if rs[0].className == k then [rs[0]] else [];
    assert GroupOf(rs, k) == head + GroupOf(rs[1..], k);
    SumConcat(head, GroupOf(rs[1..], k));
  }

  lemma DistinctTail(ks: seq<string>)
    requires Distinct(ks) && ks != []
    ensures Distinct(ks[1..]) && ks[0] !in ks[1..]
    ensures forall x :: x in ks <==> x == ks[0] || x in ks[1..]
  {
    assert ks == [ks[0]] + ks[1..];
  }

  /** Summing one key over distinct-keyed groups picks out that key's group. */
  lemma {:induction false} GroupsSum(ks: seq<string>, rs: seq<ReduceResult>, k: string)
    requires Distinct(ks)
    ensures Sum(GroupOf(Groups(ks, rs), k)) == if k in ks then Sum(GroupOf(rs, k)) else 0
  {
    if ks != [] {
      var gs := Groups(ks, rs);
      GroupSumHead(gs, k);
      assert gs[0] == ReduceResult(ks[0], Sum(GroupOf(rs, ks[0])));
      assert gs[1..] == Groups(ks[1..], rs);
      DistinctTail(ks);
      GroupsSum(ks[1..], rs, k);
    }
  }

  /** For every key, the reduced sum equals the sum over the input. */
  lemma ReduceSum(rs: seq<ReduceResult>, k: string)
    ensures Sum(GroupOf(Reduce(rs), k)) == Sum(GroupOf(rs, k))
  {
    AddKeysDistinct([], ClassNames(rs));
    AddKeysMembers([], ClassNames(rs));
    GroupsSum(GroupKeys(rs), rs, k);
    if k !in GroupKeys(rs) {
      GroupOfAbsent(rs, k);
    }
  }

  /** Each reduced tuple carries the sum of `Count` over the input tuples of its class. */
  lemma ReduceCounts(rs: seq<ReduceResult>)
    ensures forall g :: g in Reduce(rs) ==> g.count == Sum(GroupOf(rs, g.className))
  {
  }

  lemma {:induction false} GroupsOfNothing(ks: seq<string>)
    ensures Sum(Groups(ks, [])) == 0
  {
    if ks != [] {
      assert Groups(ks, [])[1..] == Groups(ks[1..], []);
      GroupsOfNothing(ks[1..]);
    }
  }

  lemma {:induction false} GroupsStep(ks: seq<string>, r: ReduceResult, t: seq<ReduceResult>)
    requires Distinct(ks)
    ensures Sum(Groups(ks, [r] + t)) == Sum(Groups(ks, t)) + if r.className in ks then r.count else 0
  {
    if ks != [] {
      var rt := [r] + t;
      assert rt[0] == r && rt[1..] == t;
      GroupSumHead(rt, ks[0]);
      var g1, g2 := Groups(ks, rt), Groups(ks, t);
      assert g1[1..] == Groups(ks[1..], rt);
      assert g2[1..] == Groups(ks[1..], t);
      DistinctTail(ks);
      GroupsStep(ks[1..], r, t);
    }
  }

  lemma {:induction false} GroupsTotal(ks: seq<string>, rs: seq<ReduceResult>)
    requires Distinct(ks)
    requires forall k :: k in ClassNames(rs) ==> k in ks
    ensures Sum(Groups(ks, rs)) == Sum(rs)
  {
    if rs == [] {
      GroupsOfNothing(ks);
    } else {
      var r, t := rs[0], rs[1..];
      assert rs == [r] + t;
      assert ClassNames(rs) == [r.className] + ClassNames(t);
      GroupsStep(ks, r, t);
      GroupsTotal(ks, t);
    }
  }

  /** Reduce preserves the total of all counts. */
  lemma ReduceTotal(rs: seq<ReduceResult>)
    ensures Sum(Reduce(rs)) == Sum(rs)
  {
    ReduceKeys(rs);
    GroupsTotal(GroupKeys(rs), rs);
  }

  // ---------------------------------------------------------------- lemmas: re-reduce

  /** Reducing the concatenation of two reduced batches gives the keys of reducing both batches at once. */
  lemma ReReduceKeys(a: seq<ReduceResult>, b: seq<ReduceResult>)
    ensures GroupKeys(Reduce(a) + Reduce(b)) == GroupKeys(a + b)
  {
    var na, nb := ClassNames(a), ClassNames(b);
    ReduceKeys(a);
    ReduceKeys(b);
    ClassNamesConcat(Reduce(a), Reduce(b));
    ClassNamesConcat(a, b);
    calc {
      GroupKeys(Reduce(a) + Reduce(b));
      AddKeys([], AddKeys([], na) + AddKeys([], nb));
      { AddKeysAppend([], AddKeys([], na), AddKeys([], nb)); }
      AddKeys(AddKeys([], AddKeys([], na)), AddKeys([], nb));
      { AddKeysDedup([], na); }
      AddKeys(AddKeys([], na), AddKeys([], nb));
      { AddKeysDedup(AddKeys([], na), nb); }
      AddKeys(AddKeys([], na), nb);
      { AddKeysAppend([], na, nb); }
      AddKeys([], na + nb);
    }
  }

  /**
    Re-reducibility: the store may reduce two batches separately and reduce
    their results together, and obtain what reducing both batches at once gives.
   */
  lemma ReReduce(a: seq<ReduceResult>, b: seq<ReduceResult>)
    ensures Reduce(Reduce(a) + Reduce(b)) == Reduce(a + b)
  {
    var ra, rb := Reduce(a), Reduce(b);
    ReReduceKeys(a, b);
    var ks := GroupKeys(a + b);
    forall i | 0 <= i < |ks|
      ensures Sum(GroupOf(ra + rb, ks[i])) == Sum(GroupOf(a + b, ks[i]))
    {
      GroupSumConcat(ra, rb, ks[i]);
      GroupSumConcat(a, b, ks[i]);
      ReduceSum(a, ks[i]);
      ReduceSum(b, ks[i]);
    }
  }

  /** Reducing an already reduced result changes nothing. */
  lemma ReduceIdempotent(rs: seq<ReduceResult>)
    ensures Reduce(Reduce(rs)) == Reduce(rs)
  {
    ReReduce(rs, []);
    assert Reduce([]) == [];
    assert Reduce(rs) + [] == Reduce(rs);
    assert rs + [] == rs;
  }

  // ---------------------------------------------------------------- lemmas: reduce after map

  /** The class name of every character, in order. */
  function CharacterClassNames(cs: seq<Character>): (ns: seq<string>)
    ensures |ns| == |cs|
  {
    seq(|cs|, i requires 0 <= i < |cs| => cs[i].characterClass.name)
  }

  lemma {:induction false} MapGroupSum(cs: seq<Character>, k: string)
    ensures Sum(GroupOf(Map(cs), k)) == multiset(CharacterClassNames(cs))[k]
  {
    if cs != [] {
      var ms := Map(cs);
      assert ms[1..] == Map(cs[1..]);
      assert CharacterClassNames(cs) == [cs[0].characterClass.name] + CharacterClassNames(cs[1..]);
      var head := if ms[0].className == k then [ms[0]] else [];
      assert GroupOf(ms, k) == head + GroupOf(ms[1..], k);
      SumConcat(head, GroupOf(ms[1..], k));
      MapGroupSum(cs[1..], k);
    }
  }

  lemma {:induction false} MapSum(cs: seq<Character>)
    ensures Sum(Map(cs)) == |cs|
  {
    if cs != [] {
      assert Map(cs)[1..] == Map(cs[1..]);
      MapSum(cs[1..]);
    }
  }

  /**
    After the map, each reduced tuple counts the characters of its class, and
    so is at least 1.
   */
  lemma MapClassNames(cs: seq<Character>)
    ensures ClassNames(Map(cs)) == CharacterClassNames(cs)
  {
  }

  lemma MapReduceCounts(cs: seq<Character>)
    ensures forall g :: g in Reduce(Map(cs)) ==> g.count == multiset(CharacterClassNames(cs))[g.className] >= 1
  {
    var rs := Reduce(Map(cs));
    MapClassNames(cs);
    forall g | g in rs
      ensures g.count == multiset(CharacterClassNames(cs))[g.className] >= 1
    {
      MapGroupSum(cs, g.className);
      assert g.className in ClassNames(rs);
    }
  }

  /** After the map, the reduced counts add up to the number of characters. */
  lemma MapReduceTotal(cs: seq<Character>)
    ensures Sum(Reduce(Map(cs))) == |cs|
  {
    ReduceTotal(Map(cs));
    MapSum(cs);
  }

  // ---------------------------------------------------------------- lemmas: the class-count query

  /**
    Querying the reduced index for a class yields that class's tuple, and the
    default tuple, with count 0, for a class no input tuple has.
   */
  lemma ReduceLookup(rs: seq<ReduceResult>, name: string)
    ensures ClassCountOrDefault(Reduce(rs), name)
         == if name in ClassNames(rs) then ReduceResult(name, Sum(GroupOf(rs, name))) else DefaultResult
    ensures ClassCountOrDefault(Reduce(rs), name).count == Sum(GroupOf(rs, name))
  {
    ReduceKeys(rs);
    if name !in ClassNames(rs) {
      GroupOfAbsent(rs, name);
    }
  }

  /**
    Querying the index for a class gives the number of characters of that
    class, and the default tuple when no character has it.
   */
  lemma ClassCount(cs: seq<Character>, name: string)
    ensures ClassCountOrDefault(Reduce(Map(cs)), name)
         == if name in CharacterClassNames(cs)
            then ReduceResult(name, multiset(CharacterClassNames(cs))[name])
            else DefaultResult
    ensures ClassCountOrDefault(Reduce(Map(cs)), name).count == multiset(CharacterClassNames(cs))[name]
  {
    ReduceLookup(Map(cs), name);
    MapGroupSum(cs, name);
    MapClassNames(cs);
  }

  /** The class queried by the advanced index test is absent from the stored characters. */
  lemma SomeClassAbsent()
    ensures ClassCountOrDefault(Reduce(Map(StoredCharacters)), "Some Class") == DefaultResult
  {
    var names := CharacterClassNames(StoredCharacters);
    assert names == ["Developer", "Developer", "Samurai", "Ninja"];
    assert "Some Class" !in names by {
      assert forall n :: n in names ==> |n| < |"Some Class"|;
    }
    ClassCount(StoredCharacters, "Some Class");
  }

  /** Over the stored characters, the query for the "Developer" class counts both Mike Keenans. */
  lemma DeveloperCount()
    ensures ClassCountOrDefault(Reduce(Map(StoredCharacters)), "Developer") == ReduceResult("Developer", 2)
  {
    var names := CharacterClassNames(StoredCharacters);
    assert names == ["Developer", "Developer", "Samurai", "Ninja"];
    assert multiset(names)["Developer"] == 2;
    ClassCount(StoredCharacters, "Developer");
  }

  // ---------------------------------------------------------------- lemmas: input order

  /** Taking the `j`-th tuple out of `b` takes its share out of every per-key sum. */
  lemma RemoveAt(b: seq<ReduceResult>, j: nat, k: string)
    requires j < |b|
    ensures Sum(GroupOf(b, k)) == Sum(GroupOf(b[..j] + b[j + 1..], k)) + Share(b[j], k)
  {
    var front, rest := b[..j], b[j..];
    assert b == front + rest;
    assert rest[1..] == b[j + 1..];
    GroupSumConcat(front, rest, k);
    GroupSumHead(rest, k);
    GroupSumConcat(front, b[j + 1..], k);
  }

  /** Matching the head of `a` with `b[j]` leaves two permutations of each other. */
  lemma PermutationTail(a: seq<ReduceResult>, b: seq<ReduceResult>, j: nat)
    requires multiset(a) == multiset(b) && a != [] && j < |b| && b[j] == a[0]
    ensures multiset(a[1..]) == multiset(b[..j] + b[j + 1..])
  {
    assert a == [a[0]] + a[1..];
    assert b == b[..j] + [b[j]] + b[j + 1..];
    assert multiset(a[1..]) == multiset(a) - multiset{a[0]};
    assert multiset(b[..j] + b[j + 1..]) == multiset(b) - multiset{b[j]};
  }

  lemma {:induction false} GroupSumPermutation(a: seq<ReduceResult>, b: seq<ReduceResult>, k: string)
    requires multiset(a) == multiset(b)
    ensures Sum(GroupOf(a, k)) == Sum(GroupOf(b, k))
  {
    if a == [] {
      assert b == [] by { assert |multiset(b)| == 0; }
    } else {
      assert a[0] in multiset(b);
      var j :| 0 <= j < |b| && b[j] == a[0];
      var b' := b[..j] + b[j + 1..];
      assert multiset(a[1..]) == multiset(b') by { PermutationTail(a, b, j); }
      GroupSumPermutation(a[1..], b', k);
      assert Sum(GroupOf(b, k)) == Sum(GroupOf(b', k)) + Share(a[0], k) by { RemoveAt(b, j, k); }
      GroupSumHead(a, k);
    }
  }

  lemma ClassNamesMembers(rs: seq<ReduceResult>, k: string)
    ensures k in ClassNames(rs) <==> exists r :: r in rs && r.className == k
  {
  }

  /**
    The class-count query does not depend on the order in which the store feeds
    the tuples to the reduce: any permutation of the input answers alike.
   */
  lemma ReduceOrderInsensitive(a: seq<ReduceResult>, b: seq<ReduceResult>, name: string)
    requires multiset(a) == multiset(b)
    ensures ClassCountOrDefault(Reduce(a), name) == ClassCountOrDefault(Reduce(b), name)
  {
    ReduceLookup(a, name);
    ReduceLookup(b, name);
    GroupSumPermutation(a, b, name);
    ClassNamesMembers(a, name);
    ClassNamesMembers(b, name);
    assert forall r :: r in a <==> r in b by {
      forall r ensures r in a <==> r in b {
        assert r in a <==> r in multiset(a);
      }
    }
  }
}
