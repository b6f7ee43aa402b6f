/**
  The `Characters/ByName` map-only index, and the query that filters it.

  The map projects every character to an entry `{ Name }`. The index query
  `Where(x => x.Name.StartsWith(prefix))` keeps, in stored order, the
  characters whose entry's name starts with the prefix.
 */
module CharactersByName {
  import opened Characters

  /** The anonymous `{ Name }` entry the map emits. */
  datatype NameEntry = NameEntry(name: string)

  /** The entry the map emits for one character. */
  function Project(c: Character): NameEntry
  {
    NameEntry(c.name)
  }

  /** The map step: one entry per character, in input order. */
  function Map(cs: seq<Character>): (r: seq<NameEntry>)
    ensures |r| == |cs|
    ensures forall i :: 0 <= i < |cs| ==> r[i].name == cs[i].name
  {
    if cs == [] then [] else [Project(cs[0])] + Map(cs[1..])
  }

  /** Each entry depends on its own character only, so the map distributes over concatenation. */
  lemma MapConcat(a: seq<Character>, b: seq<Character>)
    ensures Map(a + b) == Map(a) + Map(b)
  {
  }

  /** `s.StartsWith(prefix)`, compared character by character. */
  function StartsWith(s: string, prefix: string): (b: bool)
    ensures b <==> exists rest :: s == prefix + rest
  {
    assert |prefix| <= |s| && s[..|prefix|] == prefix ==> s == prefix + s[|prefix|..];
    |prefix| <= |s| && s[..|prefix|] == prefix
  }

  /** The prefix the index test queries with. */
  const TestPrefix := "Mike"

  /**
    `Query<Character, Characters_ByName>().Where(x => x.Name.StartsWith(prefix))`:
    the characters whose index entry matches, in stored order.
   */
  function QueryStartsWith(cs: seq<Character>, prefix: string): (r: seq<Character>)
    ensures |r| <= |cs|
    ensures forall c :: c in r ==> c in cs && StartsWith(c.name, prefix)
  {
    if cs == [] then []
    else (if StartsWith(Project(cs[0]).name, prefix) then [cs[0]] else []) + QueryStartsWith(cs[1..], prefix)
  }

  /**
    The query keeps every matching character as often as it is stored and
    drops every other one.
   */
  lemma {:induction false} QueryKeepsExactlyMatches(cs: seq<Character>, prefix: string)
    ensures forall c :: multiset(QueryStartsWith(cs, prefix))[c] == if StartsWith(c.name, prefix) then multiset(cs)[c] else 0
  {
    if cs != [] {
      QueryKeepsExactlyMatches(cs[1..], prefix);
      assert cs == [cs[0]] + cs[1..];
    }
  }

  /**
    The query keeps relative order: filtering a concatenation filters each
    part and concatenates the results.
   */
  lemma {:induction false} QueryConcat(a: seq<Character>, b: seq<Character>, prefix: string)
    ensures QueryStartsWith(a + b, prefix) == QueryStartsWith(a, prefix) + QueryStartsWith(b, prefix)
  {
    if a == [] {
      assert a + b == b;
    } else {
      assert (a + b)[1..] == a[1..] + b;
      assert (a + b)[0] == a[0];
      QueryConcat(a[1..], b, prefix);
    }
  }

  /** A query whose prefix every stored name has returns everything, in order. */
  lemma {:induction false} QueryAllMatch(cs: seq<Character>, prefix: string)
    requires forall i :: 0 <= i < |cs| ==> StartsWith(cs[i].name, prefix)
    ensures QueryStartsWith(cs, prefix) == cs
  {
    if cs != [] {
      QueryAllMatch(cs[1..], prefix);
      assert cs == [cs[0]] + cs[1..];
    }
  }

  /** Over the characters the tests store, the index query for "Mike" finds both Mike Keenans, in order. */
  lemma TestQuery()
    ensures QueryStartsWith(StoredCharacters, TestPrefix) == [MikeKeenan, MikeKeenanWithImage]
  {
    var cs := StoredCharacters;
    assert StartsWith(MikeKeenan.name, TestPrefix);
    assert !StartsWith(UserTwo.name, TestPrefix) by { assert UserTwo.name[0] != TestPrefix[0]; }
    assert !StartsWith(UserTwoSibling.name, TestPrefix) by { assert UserTwoSibling.name[0] != TestPrefix[0]; }
    assert cs[2..] == [UserTwo, UserTwoSibling];
    assert cs[2..][1..] == [UserTwoSibling];
    assert cs[2..][1..][1..] == [];
    assert QueryStartsWith([UserTwoSibling], TestPrefix) == [];
    assert QueryStartsWith(cs[2..], TestPrefix) == [];
    assert cs[1..][1..] == cs[2..];
    assert QueryStartsWith(cs[1..], TestPrefix) == [MikeKeenanWithImage];
  }
}
