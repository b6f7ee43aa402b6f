# RavenDB character indexes, modelled in Dafny

The repository stores `Character` documents in a RavenDB database and defines
two indexes over them. This project models those two index definitions as pure
functions over sequences and proves what they compute.

- `Characters/CharacterCountByClass` (`count_by_class.dfy`, module
  `CharacterCountByClass`) is a map/reduce index. Its map emits
  `{ ClassName, Count = 1 }` for each character. Its reduce groups those tuples
  by `ClassName` and sums `Count` in each group. The reduce takes and returns the
  same `ReduceResult` shape, so the database may reduce partial results again.
  The model proves that doing so is harmless: reducing two reduced batches
  together gives exactly what reducing both batches at once gives, and reducing
  twice is the same as reducing once. Groups come out in the order in which
  their key first appears, as LINQ's `group ... by` yields them. The per-class
  query answer is also proved independent of input order.
- `Characters/ByName` (`by_name.dfy`, module `CharactersByName`) is a map-only
  index that projects each character to `{ Name }`. The index test filters it
  with `Name.StartsWith("Mike")`. That filter is modelled as `QueryStartsWith`.
- The document shapes (`Character`, `CharacterClass`, `Race`, `Item`) are
  datatypes in `characters.dfy`, with the four characters the tests store.
  `wrappers.dfy` holds the `Option` type used for unset references and for
  `FirstOrDefault`.

## Model

| member | source | states |
|---|---|---|
| CharacterCountByClass.Map | RavenDb/Charcters_CharacterCountByClass.cs:20 | the map emits exactly one tuple per character, in order; the i-th has the i-th character's class name and count 1 |
| CharacterCountByClass.Reduce | RavenDb/Charcters_CharacterCountByClass.cs:22-29 | the reduce yields its keys in order of first appearance, no key twice, exactly the input's class names, and gives each tuple the sum of `Count` over the input tuples of its class |
| CharacterCountByClass.ReduceKeys | RavenDb/Charcters_CharacterCountByClass.cs:22-27 | the reduce output has one tuple per key (no key twice), and a key occurs in it exactly when some input tuple has that class name |
| CharacterCountByClass.ReduceSum | RavenDb/Charcters_CharacterCountByClass.cs:22-28 | for every class name, the counts of the reduced tuples of that class add up to the counts of the input tuples of that class |
| CharacterCountByClass.ReduceCounts | RavenDb/Charcters_CharacterCountByClass.cs:27-28 | every reduced tuple's count is the sum of `Count` over the input tuples of its class |
| CharacterCountByClass.ReduceTotal | RavenDb/Charcters_CharacterCountByClass.cs:22-29 | the total of all counts is the same before and after the reduce |
| CharacterCountByClass.ReReduceKeys | RavenDb/Charcters_CharacterCountByClass.cs:22-27 | reducing two reduced batches together yields the groups in the same order as reducing the two batches at once |
| CharacterCountByClass.ReReduce | RavenDb/Charcters_CharacterCountByClass.cs:10-30 | the reduce is re-reducible: reducing the concatenation of two reduced batches equals reducing the concatenation of the batches |
| CharacterCountByClass.ReduceIdempotent | RavenDb/Charcters_CharacterCountByClass.cs:22-29 | reducing a reduced result again changes nothing |
| CharacterCountByClass.MapGroupSum | RavenDb/Charcters_CharacterCountByClass.cs:20-28 | after the map, the sum for a class is the number of characters with that class name |
| CharacterCountByClass.MapReduceCounts | RavenDb/Charcters_CharacterCountByClass.cs:20-28 | after map then reduce, each tuple counts the characters of its class, so every count is at least 1 |
| CharacterCountByClass.MapReduceTotal | RavenDb/Charcters_CharacterCountByClass.cs:20-28 | after map then reduce, the counts add up to the number of characters |
| CharacterCountByClass.ReduceOrderInsensitive | RavenDb/Charcters_CharacterCountByClass.cs:22-29 | any permutation of the reduce input gives the same answer to the per-class query |
| CharacterCountByClass.FirstWithClass | RavenDb/UnitTest1.cs:133 | `FirstOrDefault` returns the first tuple of the requested class (no earlier tuple has that class), and returns nothing exactly when no tuple has that class |
| CharacterCountByClass.ClassCountOrDefault | RavenDb/UnitTest1.cs:133-134 | the query with `?? new ReduceResult()` returns the first tuple of the class, or the default tuple with count 0 when no tuple has that class |
| CharacterCountByClass.ReduceLookup | RavenDb/UnitTest1.cs:133-134 | querying the reduced index for a class yields that class's tuple with the summed count, or the default tuple with count 0 when no input tuple has the class |
| CharacterCountByClass.ClassCount | RavenDb/UnitTest1.cs:133-134 | the per-class query over the index yields that class with the number of characters of that class, or the default tuple with count 0 when no character has it |
| CharacterCountByClass.SomeClassAbsent | RavenDb/UnitTest1.cs:133-134 | over the four characters the tests store, the query for "Some Class" falls back to the default tuple |
| CharacterCountByClass.DeveloperCount | RavenDb/UnitTest1.cs:133-134 | over the four characters the tests store, the query for "Developer" yields count 2, one for each stored Mike Keenan |
| CharactersByName.Map | RavenDb/Characters_ByName.cs:14 | the map emits exactly one entry per character, in order; the i-th entry is the i-th character's name |
| CharactersByName.MapConcat | RavenDb/Characters_ByName.cs:14 | the map distributes over concatenation |
| CharactersByName.StartsWith | RavenDb/UnitTest1.cs:120 | a name starts with the prefix exactly when it is the prefix followed by some rest |
| CharactersByName.QueryStartsWith | RavenDb/UnitTest1.cs:120 | the prefix query returns no more characters than are stored, each stored and each with a name that starts with the prefix |
| CharactersByName.QueryKeepsExactlyMatches | RavenDb/UnitTest1.cs:120 | the prefix query keeps every matching character as many times as it is stored and drops every other one |
| CharactersByName.QueryConcat | RavenDb/UnitTest1.cs:120 | the prefix query preserves relative order: filtering a concatenation concatenates the filtered parts |
| CharactersByName.QueryAllMatch | RavenDb/UnitTest1.cs:120 | when every stored name has the prefix, the query returns all characters in stored order |
| CharactersByName.TestQuery | RavenDb/UnitTest1.cs:120 | over the four characters the tests store, the query for "Mike" returns both Mike Keenans, in stored order |

## Left out

- The session API that the tests drive: store, load, update, delete, attachments, patches, includes, paging and query statistics. All of it is network I/O against a remote server, and the behaviour lives in the RavenDB client and server, which are not part of this model.
- The query on the automatic index (`Inverntory.Any(i => i.Attack > 5)`) runs on a server-generated index that this repository does not define.
- Index registration, staleness, optimistic concurrency and server-assigned keys (`Characters/N`) belong to the database.
- Null references. `Character.Class` is always present and `Class.Name` is a plain string, so the map never meets a null class.
- CharacterCountByClass.DefaultResult: `new ReduceResult()` has a null `ClassName` in C#; the model uses the empty string.
- CharacterCountByClass.ReduceSum: counts are unbounded integers; C#'s 32-bit `int` and the overflow of `Sum` are not modelled.
- CharacterCountByClass.FirstWithClass: the database evaluates `ClassName == name` server-side; the model compares strings exactly, as it does for `StartsWith`.
- CharactersByName.QueryStartsWith: the prefix test compares characters one by one. The database evaluates `StartsWith` server-side; culture-sensitive comparison and any case folding by its analyzer are not modelled.
- CharacterCountByClass.Reduce: the database does not promise an order for reduce output; the model fixes first-appearance order (LINQ's) and proves the per-class answer independent of input order.
- `Item.Attack` and `Item.Defence` are plain `int` fields in the code, with no non-negativity check, so the model does not require them to be non-negative.
- The sibling reference of the second include-test character is the key the database gave the first one; that key is unknown here, so the sample leaves it unset.
