# Multiset: a verified model of a map-backed bag

This project models the Go package `multiset`. The package has one type,
`Multiset`. Its only data is the field `elems`, a map from each element to its
number of occurrences. `Add`, `AddCount`, `Contains`, `Equals`, `Count`,
`IsEmpty`, `Size`, `Remove` and `RemoveCount` take the type's reader/writer
lock and then call an unlocked helper (`addCount`, `contains`, `equals`,
`count`, `size`, `removeCount`), or loop over one. `Clear`, `DistinctElements`
and `ToSlice` take the lock and work on `elems` directly. `New` and `String`
take no lock. The model drops the lock and keeps the logic.

`multiset.dfy` (module `Multiset`) has two parts.

- **Specification of the count map.** These are pure functions over
  `map<T, int>`:
  - `AllPositive` is the representation invariant: every stored count is
    greater than 0.
  - `CountOf` reads a count (0 for an absent element).
  - `Bag` (ghost) is the multiset that a positive map stands for.
  - `Added` and `Removed` give the map after `addCount` and after
    `removeCount`.
  - `AddEach` and `RemoveEach` give the map after `Add(s...)` and after
    `Remove(s...)`.
  - `RemoveReport` is the value `Remove` returns.
  - `SumCounts` adds up the counts of a list of elements.

  The lemmas relate each of these to `Bag`. For example, `Remove` amounts to
  multiset difference, `Add` to multiset sum, and the size is the sum of the
  counts over the distinct elements.
- **The class `Multiset<T>`.** Its field is `elems: map<T, int>` and its class
  invariant is `Valid()`. The constructor `New` and every method do what the Go
  code does to the map, in the same order and with the same early exits. Each
  one states its effect against the specification functions above. Go's
  `range` over the map becomes a loop over a copy of the map that picks any
  remaining key with `:|`, because Go gives no iteration order. So `ToSlice`
  and `DistinctElements` are specified up to the multiset of what they return.

`examples_client.dfy` (module `MultisetClient`) replays the scenarios of
`multiset_test.go` as client methods. They are proved from the class contracts
alone.

`Remove` keeps the return rule of the code: it returns true exactly when some
listed element had a count greater than 1 just before its own removal step.
The lemma `RemoveReportMeaning` proves that this is the same as "some listed
element had more than one occurrence before the call". The Go doc comment
calls the result "changed". The lemma `RemoveReportIsNotChange` shows that the
two differ: removing the last occurrence changes the map, but `Remove` reports
false. The model follows the code. Beside it, `RemoveChange` is the report the
comment describes (some removal step found its element present), and
`RemoveChangeMeaning` proves that it holds exactly when the map changes. The
class method `Remove` keeps the code's result. Its contract also states when
the map changes (`RemoveEachChanges`) and that a true result implies a change.

## Model

| member | source | states |
|---|---|---|
| `Multiset.Bag` | multiset.go:9-13 | the abstract multiset of a positive count map: each element occurs exactly as often as its stored count, and an absent element 0 times |
| `Multiset.BagCardinality` | multiset.go:142-148 | the total number of occurrences is the count of any one stored element plus the total of the rest of the map |
| `Multiset.BagEmpty` | multiset.go:128-133 | the multiset is empty exactly when the map has no entry |
| `Multiset.BagInjective` | multiset.go:89-100 | for maps whose counts are all positive, equal multisets and equal maps are the same thing |
| `Multiset.Added` | multiset.go:50-58 | `addCount(e, c)` keeps every count positive, raises the count of `e` by `c` when `c > 0` (starting from 0 when absent), and changes no other count; with `c <= 0` no count changes |
| `Multiset.Removed` | multiset.go:175-188 | `removeCount(e, c)` keeps every count positive and adds no key; when `c > 0` the count of `e` becomes the old count minus `c` if that is positive and 0 otherwise; with `c <= 0` no count changes; no other count changes |
| `Multiset.AddedBag` | multiset.go:50-58 | `addCount(e, c)` adds `c` copies of `e` to the multiset when `c > 0` and none otherwise |
| `Multiset.RemovedBag` | multiset.go:175-188 | `removeCount(e, c)` takes up to `c` copies of `e` out of the multiset when `c > 0` and none otherwise |
| `Multiset.AddEach` | multiset.go:32-38 | adding one occurrence per listed element, in order, keeps every count positive |
| `Multiset.AddEachBag` | multiset.go:32-38 | adding one occurrence per listed element is multiset sum with the list's multiset |
| `Multiset.RemoveEach` | multiset.go:153-163 | removing one occurrence per listed element, in order, keeps every count positive |
| `Multiset.RemoveEachBag` | multiset.go:153-163 | removing one occurrence per listed element is multiset difference with the list's multiset |
| `Multiset.RemoveReportMeaning` | multiset.go:156-162 | `Remove`'s result holds exactly when some listed element had more than one occurrence before the call |
| `Multiset.RemoveReportIsNotChange` | multiset.go:150-162 | removing the only occurrence of an element changes the map, yet `Remove` reports false |
| `Multiset.RemoveEachShrinks` | multiset.go:175-188 | removing one occurrence per listed element never raises any count |
| `Multiset.RemoveEachChanges` | multiset.go:150-163 | `Remove(s...)` changes the map exactly when some listed element is present before the call |
| `Multiset.RemoveChangeMeaning` | multiset.go:150-152 | the report described in the doc comment (a removal step found its element present) holds exactly when some listed element is present, and exactly when the map changes |
| `Multiset.SizeIsSumOverDistinct` | multiset.go:142-148 | for any list that names each stored element exactly once, the sum of their counts is the total number of occurrences |
| `Multiset.Multiset.New` | multiset.go:15-23 | the new multiset satisfies the invariant, its map is the empty map after one `addCount(e, 1)` per listed element, and its contents are exactly the multiset of the list |
| `Multiset.Multiset.Add` | multiset.go:30-38 | keeps the invariant; the map is the old map after one `addCount(e, 1)` per listed element, so the contents become the old contents plus the list's multiset |
| `Multiset.Multiset.AddCount` | multiset.go:40-58 | returns the count before the call; keeps the invariant; with `c <= 0` the map is unchanged; with `c > 0` the count of `e` grows by `c`; no other count changes; the contents gain `c` copies of `e` |
| `Multiset.Multiset.Contains` | multiset.go:60-76 | true iff every listed element has a positive count, which is also iff each listed element is in the contents; true for the empty list |
| `Multiset.Multiset.Equals` | multiset.go:78-100 | the size check and the per-key count check together hold iff the two maps are equal, and so iff the two multisets are equal |
| `Multiset.Multiset.Count` | multiset.go:102-118 | the count is never negative, equals the multiplicity of `e` in the contents, and is positive iff `e` is stored |
| `Multiset.Multiset.CountAll` | multiset.go:110-118 | the helper `count(s...)` returns the sum of the counts of the listed elements, which is `Count(e)` for a one-element list |
| `Multiset.Multiset.Clear` | multiset.go:120-126 | afterwards the map is empty, the invariant holds and the contents are the empty multiset |
| `Multiset.Multiset.IsEmpty` | multiset.go:128-133 | true iff the contents are empty, which is iff no element is stored |
| `Multiset.Multiset.Size` | multiset.go:135-148 | the sum of all stored counts is the number of occurrences in the contents |
| `Multiset.Multiset.Remove` | multiset.go:150-163 | keeps the invariant; the map is the old map after one `removeCount(e, 1)` per listed element in list order; the contents become the old contents minus the list's multiset; the result is true iff some listed element had a count above 1 before the call; the map changes iff some listed element was present; a true result implies that the map changed |
| `Multiset.Multiset.RemoveCount` | multiset.go:165-188 | returns the count before the call; keeps the invariant; with `c <= 0` or `e` absent nothing changes; otherwise the count of `e` drops by `c` when more than `c` were present and `e` is deleted when not; no other count changes; the contents lose up to `c` copies of `e` |
| `Multiset.Multiset.DistinctElements` | multiset.go:206-216 | every stored element appears exactly once in the result and nothing else appears, so its length is the number of distinct elements |
| `Multiset.Multiset.ToSlice` | multiset.go:218-229 | the result holds each element exactly as many times as its count, so its multiset is the contents and its length is `Size()` |

## Left out

- The `sync.RWMutex` embedded in the type and every `Lock`/`RLock` call are left out. The model is single-threaded. So it does not model the lock-order deadlock of two `Equals` calls running in opposite directions, or the capacity hints. `DistinctElements` reads `len(m.elems)` for its hint before it takes the lock. `ToSlice` takes its hint from `Size()`, which locks on its own, in a critical section separate from the copying loop, so the hint can be stale.
- `Iter` is left out because it produces elements from a goroutine over a channel. It yields the same elements as `ToSlice`.
- `String` is not part of this model, because its output is whatever `fmt.Sprint` makes of `ToSlice()`.
- Counts are unbounded integers. Go's `int` overflow on `m.elems[e] += c` and in the size sum is not modelled.
- The element type `interface{}` becomes a type parameter with equality. Its values cannot depend on allocation (`!new`). Dafny's equality is reflexive, so two Go behaviours are ruled out. First, Go panics when a key's dynamic type cannot be hashed, such as a slice, at the map accesses on lines 56, 113 and 181. Second, a float NaN key is never equal to itself. Each add then stores a fresh entry, and `Count` and `Contains` never find it. So for NaN, "`Count(e) > 0` iff `e` is stored" does not hold in Go.
- The order of Go's map iteration is not modelled. Each loop over the map picks any remaining key, so `ToSlice` and `DistinctElements` are specified only up to the multiset of what they return.
- The capacity hints passed to `make` in `DistinctElements` and `ToSlice` are left out, because they affect performance only.
- The public `Count(e)` and every call of the helper `count` in the source pass one element, so `Count` is modelled as a one-element function. The variadic sum of the helper is modelled separately, as `CountAll`.

## Findings

| source | as written | input that shows it | evidently intended | confidence | as-written member | corrected member |
|---|---|---|---|---|---|---|
| multiset.go:150-163 | `Remove` sets its result when a removal step saw a count above 1 (`count > 1`, line 158) | `New("a")` then `Remove("a")`: the map becomes empty, yet the result is false | the result says whether the multiset changed, as the doc comment on lines 151-152 states, that is `count > 0` | not executed | `Multiset.RemoveReportIsNotChange` | `Multiset.RemoveChangeMeaning` |

`RemoveReportIsNotChange` is about `RemoveReport`, which is the result of
`Multiset.Multiset.Remove`. `RemoveChangeMeaning` is about the corrected
report `RemoveChange`. The class keeps the code's result, because callers can
observe it. The
contract of `Multiset.Multiset.Remove` also says, through `RemoveEachChanges`,
exactly when the multiset changes.
