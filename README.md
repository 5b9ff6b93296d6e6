# Criteria query builder, modelled in Dafny

This project models the core of a PHP library that builds Apache Solr / Lucene query strings
through a fluent API. A `Criteria` object is one predicate leaf. It has:

- a non-empty field name;
- an append-only list of already-formatted predicate tokens;
- a negation flag, a boost and a flag that hides the field prefix.

The leaves hang in an expression tree of `Node` objects. A node is either a leaf or a group
("crotch"). A group has ordered children, each child carrying the operator `AND`, `OR` or none.
`getQuery` renders the tree with a fixed bracketing rule.

The model has three layers.

- **Values.** The value formatter and the token shapes, as pure functions (`Formatter`,
  `Tokens`, `Predicates`):
  - `processValue` escapes the Lucene reserved characters in one left-to-right scan, then
    double-quotes the result when PHP's `strpos` reports a space.
  - `processFloat` appends `.0` unless the text holds a dot and its first dot is not at
    index 0 (PHP's `strpos` gives 0 there, which reads as false).
  - The two argument checks, and the token each predicate method appends.
- **Tables.** The objects of one PHP process as two tables (`Tree`, `Render`, `Queries`):
  - `criteria`, with the Criteria objects, indexed by handle;
  - `nodes`, with the Node objects, indexed by identity.

  Sharing is the same index appearing in two places. `andWhere('f')` gives the new criteria
  the receiver's root. `inject` stores the injected root itself, so `p.andWhere(p)` can close a
  cycle. Over these tables the layer defines:
  - the node mutators (`append`, `inject`, `connect`, `setNegatingWholeChildren`), as
    functions from old tables to new;
  - the invariant they keep (`Valid`);
  - the rendering, `RenderNode`/`RenderChildren`. A fuel bound makes these total; a query
    exists exactly when some fuel suffices, and a cycle never renders.
  - What each combinator does to the rendered query.
- **Objects.** One class, `Search.Arena`, whose methods update the two tables in place, as the
  PHP methods update their objects:
  - every `Criteria` method and every `Node` mutator, each proved against the functions
    above;
  - `traverse`, with the children loop, the predicate `while` loop, and its lazy
    `isNotNull()` on empty leaves;
  - `getQuery` / `__toString`, proved to return the rendering of the tables as they were, and
    to leave tables that render the same string again.

One more module, `Scenarios`, derives one query the library's tests expect from the table
functions step by step, so the rendering rule can be read off a concrete case.

Errors the PHP code throws as `InvalidArgumentException` are results: `Result.Err` or
`Outcome.Fail` with an `Error` tag. Every method states what the tables look like after a
refusal.

`where` with an empty field name is modelled as the code behaves, not as an ideal. The code
creates the root group before the constructor throws, so the refused call leaves one new
empty group that nothing refers to (`Search.Arena.Where`).

On the combination `p.connect().notOperator()` of a two-leaf expression `p`, the code gives
`-((x:foo OR y:bar))`, with two pairs of parentheses. The root is negated, so it is enclosed,
and the group that `connect` created has two children and is not the root, so it is enclosed
as well (src/Criteria.php:524-542). The model follows the code. Without `connect`,
`notOperator` on a root that is not yet negated turns its query `q` into `-(q)`
(`Queries.NotOperatorQuery`), so the same expression negated directly renders
`-(x:foo OR y:bar)`.

## Model

| member | source | states |
|---|---|---|
| Formatter.Escape | src/Criteria.php:606-607 | escaping keeps spaces where they were (a space is in the result iff in the input, and a leading space stays leading), never shortens the text, and never starts it with a quote |
| Formatter.UnescapeEscape | src/Criteria.php:606-607 | the escape scan is invertible: removing one backslash before each escaped token gives back the input |
| Formatter.EscapePlain | src/Criteria.php:606-607 | text without any reserved character or token is left unchanged |
| Formatter.EscapeLength | src/Criteria.php:606-607 | the escaped text is longer by exactly one backslash per reserved token (a doubled `&&`/`\|\|` counting once) |
| Formatter.StrPos | src/Criteria.php:610 | `strpos` finds nothing iff the character is absent, and otherwise gives its first occurrence |
| Formatter.OccursAfterStartIff | src/Criteria.php:610 | the truthiness test on `strpos` holds iff the character occurs and the text does not start with it |
| Formatter.ProcessValue | src/Criteria.php:592-615 | `'*'` is kept, booleans become `true`/`false`, null becomes the empty text |
| Formatter.ProcessValueQuoting | src/Criteria.php:609-612 | a string is double-quoted iff it holds a space and its first space is not at index 0; otherwise the result does not start with a quote |
| Formatter.ProcessValueRoundTrip | src/Criteria.php:592-615 | every formatted string decodes back to the original |
| Formatter.ProcessPlain | src/Criteria.php:606-612 | text without reserved characters is returned as it is, quoted exactly when it holds a space and its first space is not at index 0 |
| Formatter.LeadingSpaceStaysUnquoted | src/Criteria.php:610 | a string starting with a space is escaped but never quoted, although it holds a space |
| Formatter.ProcessFloat | src/Criteria.php:621-626 | the text is kept iff it holds a dot and its first dot is not at index 0; otherwise `.0` is appended; the result is never a text PHP reads as false |
| Formatter.ProcessFloatIdempotent | src/Criteria.php:621-626 | formatting a number twice gives what formatting it once gives |
| Formatter.AssertNotBlanks | src/Criteria.php:632-639 | the check refuses a term iff its string form holds a space and its first space is not at index 0 |
| Formatter.AssertPositiveFloat | src/Criteria.php:645-650 | only a negative distance is refused; zero passes |
| Tokens.FlattenCount | src/Criteria.php:195-227 | a nested value flattens to as many scalars as it has non-list entries at any depth |
| Tokens.FlattenAllCount | src/Criteria.php:216-227 | the same for a list of values |
| Tokens.LeafCountAllSplit | src/Criteria.php:216-227 | a list counts as its init plus its last entry |
| Tokens.SizeAllBounds | src/Criteria.php:216-227 | an entry and a prefix of a list are no larger than the list, so the recursive in/contains/startsWith calls terminate |
| Tokens.AllValuesText | src/Criteria.php:300-313 | `isNull`/`isNotNull` append `[* TO *]` |
| Tokens.RangeTokenShape | src/Criteria.php:133-141 | a range token opens with `[` or `{` as the lower bound is inclusive or not, and closes with `]` or `}` likewise; a null bound prints as `*` |
| Tokens.RangeTokenVerbatim | src/Criteria.php:133-141 | bounds that format to themselves appear verbatim around ` TO ` |
| Tokens.RangeTokenAmbiguous | src/Criteria.php:133-141 | bounds are not escaped against the separator: the bounds `""` and `" TO b"` give the same token as `" TO "` and `"b"` |
| Tokens.WildcardTokensReadBack | src/Criteria.php:321-377 | a term that passes the blank check reads back from its contains/startsWith/endsWith token once the wildcards are removed |
| Tokens.SloppyPhraseQuoted | src/Criteria.php:432-445 | an accepted phrase whose first character is not a space is quoted, then followed by `~` and the distance |
| Tokens.TakeUntilBlankPrefix | src/Criteria.php:342-377 | what a list argument of startsWith/endsWith has appended when it stops is the longest prefix of its scalars that passes the check |
| Tokens.TakeUntilBlankAll | src/Criteria.php:342-377 | nothing is cut off exactly when every scalar passes the check |
| Predicates.FuzzyCheck | src/Criteria.php:411-416 | a distance is refused iff it is given and lies outside [0, 1] |
| Predicates.SloppyCheck | src/Criteria.php:432-440 | a phrase passes iff the distance is positive and the phrase holds a space anywhere; the distance is checked first |
| Predicates.BoostCheck | src/Criteria.php:479-483 | only a negative boost is refused |
| Predicates.TokensAppend | src/Criteria.php:195-227 | the tokens of is/in, contains, startsWith and endsWith for two lists one after the other are the tokens of each list, concatenated: each scalar gives its token independently and in order |
| Predicates.IsValueTokens | src/Criteria.php:195-208 | `is(v)` appends one token per scalar of `v`, depth first, and negates the criteria iff a null is among them; nothing else changes |
| Predicates.InValuesTokens | src/Criteria.php:216-227 | `in(vs)` does the same for the flattened list |
| Predicates.InValuesCount | src/Criteria.php:216-227 | `in(vs)` appends exactly as many tokens as `vs` has non-list entries, after the existing ones |
| Predicates.IsListIsIn | src/Criteria.php:197-199 | `is(list)` is `in(list)` |
| Predicates.TakeUntilBlankAppend | src/Criteria.php:342-377 | a prefix that passes the check is kept whole and the scan continues after it; a prefix that fails stops the scan within it |
| Predicates.TakeUntilBlankStops | src/Criteria.php:344-352 | when entry `i` of a list argument is the first to hold a refused term, what is kept is everything before it plus what entry `i` kept, and the call is refused |
| Predicates.TakeUntilBlankContinues | src/Criteria.php:344-352 | an entry with no refused term adds all its scalars to the kept prefix |
| Predicates.AffixOne | src/Criteria.php:349-351 | on one scalar, the check's outcome decides whether its one token is appended |
| Tree.NewRootValid | src/Criteria.php:85 | a new empty group keeps the invariant |
| Tree.Append | src/Internal/Node.php:106-112 | exactly one new leaf child at the end with the operator and the criteria, which becomes the most recent; every other node is unchanged |
| Tree.Inject | src/Internal/Node.php:90-97 | exactly one new child at the end: a new group carrying the operator whose one child is the injected root itself; most recent criteria and flag unchanged |
| Tree.Connect | src/Internal/Node.php:119-128 | the group's one child is now a new blank group holding the old children in order with the old flag; the group's own flag is cleared and its most recent criteria kept |
| Tree.SetNegatingWholeChildren | src/Internal/Node.php:173-176 | only the flag of that one group changes |
| Tree.SetNegatingIdempotent | src/Internal/Node.php:173-176 | setting the flag twice is setting it once |
| Tree.Where | src/Criteria.php:83-90 | a new root group whose only child is a blank-operator leaf on a new criteria, which is its most recent one; the invariant holds |
| Tree.AddField | src/Criteria.php:99-122 | `andWhere/orWhere('f')`: a new criteria on the receiver's root, appended with the operator as its last child and most recent criteria; the invariant holds |
| Tree.AddNested | src/Criteria.php:99-122 | `andWhere/orWhere(criteria)`: the other root injected under the receiver's root with the operator; the invariant holds |
| Tree.ConnectRoot | src/Criteria.php:465-470 | connect on the handle's root keeps the invariant |
| Tree.NegateRoot | src/Criteria.php:396-401 | notOperator sets only the root's flag and keeps the invariant |
| Tree.UpdateCriteriaValid | src/Criteria.php:133-488 | changing a criteria's tokens or flags, or setting a boost PHP reads as true, keeps the invariant |
| Tree.PathExtends | src/Internal/Node.php:90-128 | children only grow: every path in the old tables is a path in tables that extend them |
| Tree.AppendInjectKeepPaths | src/Internal/Node.php:90-112 | append and inject keep every existing path |
| Tree.ConnectKeepsPaths | src/Internal/Node.php:119-128 | connect keeps every node reachable (one level deeper), so no leaf becomes unreachable |
| Tree.ConnectKeepsOrder | src/Internal/Node.php:119-128 | after connect, the group's only child holds exactly the old children, in order |
| Render.MaterializeKeepsText | src/Criteria.php:547-550 | filling an empty criteria with `[* TO *]` does not change its text, and filling twice is filling once |
| Render.FreshText | src/Criteria.php:543-582 | a criteria just created renders as `field:[* TO *]` |
| Render.RenderNode | src/Criteria.php:516-586 | the functional form of traverse: an operator prefix, then for a group its children's texts enclosed by `-` and parentheses as the flag and child count decide, for a leaf `LeafText`; None when the fuel runs out |
| Render.RenderNodeShape | src/Criteria.php:519-542 | a leaf always renders; every rendering starts with the node's ` AND ` / ` OR ` prefix; a negated group continues with `-(` and ends with `)` |
| Render.RenderNodeMono | src/Criteria.php:516-586 | more fuel never changes a rendering that succeeded |
| Render.QueryAt | src/Criteria.php:505-508 | the query of a handle is the rendering at any sufficient fuel |
| Render.PathFuel | src/Criteria.php:536-538 | every node reachable from a rendered node is rendered, with less fuel |
| Render.CycleNeverRenders | src/Internal/Node.php:90-97 | a node on a cycle, which inject can create, never renders: traverse would not terminate |
| Render.NoPathBack | src/Criteria.php:536-538 | no child of a rendered group leads back to it |
| Render.RenderNodeFrame | src/Criteria.php:516-586 | a rendering depends only on the nodes and criteria reachable from it, and on which of them is the root |
| Render.MaterializedValid | src/Criteria.php:547-550 | what traverse leaves behind keeps the invariant |
| Render.MaterializedRendersAlike | src/Criteria.php:547-550 | what traverse leaves behind renders exactly as before |
| Render.MaterializedLeaf | src/Criteria.php:545-581 | a leaf's parentheses, decided before the lazy `isNotNull`, agree with its text |
| Queries.WhereQuery | src/Criteria.php:83-90 | `where('f')` renders `f:[* TO *]` |
| Queries.AddOperand | src/Criteria.php:524-542 | adding a child's text to a rendered group: appended at the end, or just inside the closing parenthesis when the group is negated |
| Queries.EncloseAddOperand | src/Criteria.php:524-542 | the same, stated on the enclosing rule |
| Queries.AddFieldQuery | src/Criteria.php:99-122 | `andWhere/orWhere('f')` adds ` AND f:[* TO *]` / ` OR f:[* TO *]` to the receiver's query: at its end, or just inside its closing parenthesis when the root is negated |
| Queries.AddNestedQuery | src/Criteria.php:99-122 | `andWhere/orWhere(other)`, when the other's tree does not reach the receiver's root, adds the operator and the other's query (enclosed iff the other root is negated or has more than one child) to the receiver's query, in the same place |
| Queries.AddNestedCycle | src/Internal/Node.php:90-97 | injecting a criteria whose tree already reaches the receiver's root makes the receiver's query undefined |
| Queries.ConnectQuery | src/Criteria.php:465-470 | connect puts parentheses around the query iff the root is not negated and has more than one child |
| Queries.NotOperatorQuery | src/Criteria.php:396-401 | notOperator turns a query `q` into `-(q)`, and changes nothing when already applied |
| Queries.UnreachableCriteriaQuery | src/Criteria.php:516-586 | changing a criteria that no leaf under the root refers to does not change the query |
| Search.Join | src/Criteria.php:565-574 | the predicate loop of traverse produces the tokens joined by single spaces |
| Search.Arena.AppendLeaf | src/Internal/Node.php:106-112 | in place, the tables become `Append` of the old ones |
| Search.Arena.InjectGroup | src/Internal/Node.php:90-97 | in place, the tables become `Inject` of the old ones |
| Search.Arena.ConnectChildren | src/Internal/Node.php:119-128 | in place, the tables become `Connect` of the old ones |
| Search.Arena.SetNegating | src/Internal/Node.php:173-176 | in place, the tables become `SetNegatingWholeChildren` of the old ones |
| Search.Arena.NewCriteriaOn | src/Criteria.php:62-74 | an empty field name is refused and nothing changes; otherwise one new criteria |
| Search.Arena.Where | src/Criteria.php:83-90 | `Tree.Where` of the old tables; an empty name is refused, leaving one unreferenced empty group |
| Search.Arena.AndWhere | src/Criteria.php:99-106 | `AddField` or `AddNested` with AND; returns the new criteria, or the receiver root's previous most recent one; `andWhere('')` is refused and changes nothing |
| Search.Arena.OrWhere | src/Criteria.php:115-122 | the same with OR |
| Search.Arena.Connect | src/Criteria.php:465-470 | the tables become `ConnectRoot` of the old ones |
| Search.Arena.NotOperator | src/Criteria.php:396-401 | the tables become `NegateRoot` of the old ones |
| Search.Arena.Between | src/Criteria.php:133-141 | exactly one range token appended to that criteria; nothing else changes |
| Search.Arena.LessThanEqual | src/Criteria.php:149-152 | `between(null, x, true, true)` |
| Search.Arena.LessThan | src/Criteria.php:160-163 | `between(null, x, true, false)` |
| Search.Arena.GreaterThan | src/Criteria.php:171-174 | `between(x, null, false, true)` |
| Search.Arena.GreaterThanEqual | src/Criteria.php:182-185 | `between(x, null, true, true)` |
| Search.Arena.Not | src/Criteria.php:384-389 | sets only the negation flag, so applying it twice is applying it once |
| Search.Arena.IsNull | src/Criteria.php:300-303 | `[* TO *]` appended and the criteria negated |
| Search.Arena.IsNotNull | src/Criteria.php:310-313 | `[* TO *]` appended |
| Search.Arena.Is | src/Criteria.php:195-208 | the criteria becomes `IsValue` of the old one, which `Predicates.IsValueTokens` describes token by token |
| Search.Arena.In | src/Criteria.php:216-227 | the criteria becomes `InValues` of the old one, each entry in turn |
| Search.Arena.WithinCircle | src/Criteria.php:241-250 | a negative distance is refused and nothing changes; otherwise the geofilt token naming the field is appended and the field prefix hidden |
| Search.Arena.NearCircle | src/Criteria.php:284-293 | the same with bbox |
| Search.Arena.WithinBox | src/Criteria.php:263-269 | the box token appended, the field prefix kept |
| Search.Arena.Contains | src/Criteria.php:321-333 | one `*term*` token per scalar of the argument, in order |
| Search.Arena.StartsWith | src/Criteria.php:342-355 | refused iff some scalar of the argument fails the blank check; the `term*` tokens of the scalars before the first refused one stay appended |
| Search.Arena.EndsWith | src/Criteria.php:364-377 | the same with `*term` |
| Search.Arena.Fuzzy | src/Criteria.php:411-421 | refused per `FuzzyCheck` with nothing changed; otherwise the fuzzy token appended |
| Search.Arena.Sloppy | src/Criteria.php:432-445 | refused per `SloppyCheck` with nothing changed; otherwise the sloppy token appended |
| Search.Arena.Expression | src/Criteria.php:453-458 | the text appended verbatim |
| Search.Arena.Boost | src/Criteria.php:479-488 | a negative boost is refused with nothing changed; otherwise the formatted boost replaces any earlier one |
| Search.Arena.Traverse | src/Criteria.php:516-586 | returns `RenderNode` of the tables as they were when rendering began, changing nothing but filling empty criteria |
| Search.Arena.TraverseLeaf | src/Criteria.php:543-582 | a leaf's text is `LeafText` of its criteria as it was |
| Search.Arena.TraverseChildren | src/Criteria.php:536-538 | a group's children texts concatenated in order |
| Search.Arena.GetQuery | src/Criteria.php:505-508 | returns the query of the old tables, and the new tables render the same query again |
| Search.Arena.ToString | src/Criteria.php:495-498 | the same as `GetQuery` |
| Scenarios.ConnectThenAndWhere | tests/SpringCriteriaTest.php:374-381 | `where('z')->is('roo')`, then `connect()` and `andWhere` of `where('x')->is('foo')->orWhere('y')->is('bar')`: the query of the handle `andWhere` returns is exactly `z:roo AND (x:foo OR y:bar)` |
| Scenarios.PlainWords | src/Criteria.php:606-612 | `roo`, `foo` and `bar` are formatted as they are |
| Scenarios.FirstPart | src/Criteria.php:83-90 | `where('z')->is('roo')` on empty tables gives one root holding one leaf whose criteria holds the token `roo` |
| Scenarios.SecondPart | src/Criteria.php:83-90 | a second `where('x')->is('foo')` adds a second root and leaf and leaves the first untouched |
| Scenarios.SecondPartOr | src/Criteria.php:115-122 | `orWhere('y')->is('bar')` adds a third criteria on the second root, under an OR leaf |
| Scenarios.OrNodes | src/Internal/Node.php:106-112 | the OR leaf becomes the second root's last child and its most recent criteria |
| Scenarios.Connected | src/Internal/Node.php:90-128 | `connect()` moves the first root's leaf into a new group, and `andWhere` then adds an AND group holding the second root |
| Scenarios.RenderConnected | src/Criteria.php:516-586 | those tables render `z:roo AND (x:foo OR y:bar)` from the first root: the injected group's two children get parentheses, the connected group's single child does not |
| Scenarios.RenderInjected | src/Criteria.php:524-542 | the AND group renders ` AND (x:foo OR y:bar)` |
| Scenarios.LeafRenders | src/Criteria.php:543-582 | a leaf with one token, no flags and no boost renders its operator prefix, then `field:token` |

## Left out

- PHP's conversion of ints and floats to strings (src/Criteria.php:607, :623) is floating-point formatting. Numbers are `Number(value, text)` pairs: the real value for the bound checks and the text PHP would print.
- `DateTime::format` (src/Criteria.php:598-600) is a library call with time-zone semantics. A date is the string it formats to, which is then escaped like any string.
- Objects with `__toString` are foreign calls. They are the strings they convert to.
- Runtime type checks (`is_string`, `is_array`, `is_bool`, `instanceof`) and the "field must be a string" error (src/Criteria.php:64-66) disappear into the types: `Scalar`, `Value` and `Operand`.
- `preg_replace` is modelled as an explicit left-to-right token scan with the same token set, not as regular-expression matching.
- Node's read-only getters (`getType`, `getCriteria`, `getChildren`, `getMostRecentCriteria`, `isNegatingWholeChildren`, `getOperator`) are field reads on the `nodes` table.
- Search.Arena.GetQuery: requires that rendering terminates. On a tree made cyclic by `inject`, PHP recurses until the stack overflows; the model proves that such a tree never renders (`Render.CycleNeverRenders`, `Queries.AddNestedCycle`) instead of modelling the overflow.
- Render.RenderNode: takes a fuel bound to be total in the presence of cycles. The query is the rendering at any sufficient fuel (`Render.QueryAt`), so the bound adds no behaviour.
