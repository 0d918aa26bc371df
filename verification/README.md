# Header serialisation (enetx/http `Header.WriteSubset`)

This project models the header block writer of the enetx/http library.

A `Header` maps each header name, with the casing it was stored under, to its
values in stored order. `WriteSubset(h, exclude)` builds the header block in
four steps:

- It drops the names in `exclude`.
- It drops the reserved Header-Order pseudo-header (`OrderKey`).
- It chooses the emission order:
  - with a Header-Order list, it follows the list, matching names up to ASCII case;
  - otherwise it sorts names in ascending byte-wise order.
- It writes one `Name: value` line, terminated by CR LF, per stored value, in stored order.

Modules:

- `Strings`:
  - byte-wise order `Less`, proved to be lexicographic order and a strict total order;
  - ASCII case-insensitive equality `EqualFold`, proved to be equality of the lower-cased strings.
- `SortedKeys`: `SortSet`, the ascending listing of a finite set of names.
- `HeaderOrder`:
  - `Rank`, the position of a name in a Header-Order list;
  - `Before`, the emission order;
  - `Resolve`, which lists names under a Header-Order list;
  - `Insert`, the insertion-sort step;
  - `SortedByUnique`: there is only one sorted listing of a set of names.
- `Header`:
  - the data model;
  - `EmissionOrder`, `Emitted` and `WriteSubset`;
  - `Parse`, which reads a block back;
  - `WriteSubsetByIteration`, an iterative formulation of the serialiser. It ranges over the keys in any order, filters, then insertion-sorts, and is proved equal to `WriteSubset` for every iteration order.
- `HeaderVectors`: every row of the test table in `header_test.go`, each proved as a lemma about `WriteSubset`. Each row's expected block is written line by line.

The byte sink is the returned string.

## Model

| member | source | states |
|---|---|---|
| Header.Emitted | header_test.go:16-48 | The emitted (name, value) pairs name only stored, non-excluded names other than the order key. Each such name gets exactly its stored values, in stored order, and the other names get none. Names come out grouped, the groups in byte-wise order, or in Header-Order order when the order list is present. |
| Header.EmissionOrder | header_test.go:68-98 | The emitted names are exactly the stored names that are neither excluded nor the order key. They are ascending byte-wise without an order list, and sorted by the list's ranks when it is present. |
| Header.EmissionOrderUnique | header_test.go:139-148 | Any listing of the candidate names that is sorted in emission order equals the emission order. The output therefore depends only on the map's contents, not on how it was built or iterated. |
| Header.CustomOrderFollowsList | header_test.go:99-135 | Suppose the Header-Order list names each candidate exactly once, up to ASCII case. Then the names are emitted in the list's order, with their stored casing. |
| Header.WriteSubset | header_test.go:139-148 | The serialiser: the block is `Render(Emitted(h, exclude))`, one `Line` (`Name: value` CR LF) per emitted field. Its contract states that the block is empty exactly when every stored, non-excluded name other than the order key has an empty value list: an empty header, all names excluded, or only nil or empty lists. What the block holds is stated by `Header.WriteSubsetReadsBack` and `Header.Emitted`. |
| Header.WriteSubsetReadsBack | header_test.go:22-30 | Suppose names hold no colon and values hold no CR. Splitting each line at its first ": " and its first CR LF then gives back exactly the emitted pairs. Each line is therefore `Name: value\r\n` with nothing added or escaped. |
| Header.ParseRender | header_test.go:24-30 | Reading back any rendered list of fields gives the same fields, one line per field, in order. |
| Header.WriteSubsetByIteration | header_test.go:68-84 | Ranging over the keys in any order, filtering, then insertion-sorting yields exactly `WriteSubset`. |
| HeaderOrder.Resolve | header_test.go:86-98 | Resolution under an order list lists every pending name exactly once, and nothing else. The listing is sorted by first-matching rank, ties in byte-wise order. |
| HeaderOrder.RankIsFirstMatch | header_test.go:114-128 | A name's rank is the index of the first list entry equal to it up to ASCII case; no earlier entry matches. The rank is the list's length when no entry matches. |
| HeaderOrder.ResolveFollowsList | header_test.go:99-135 | Suppose each entry matches exactly one pending name and the names are pairwise distinct up to case. Then resolution yields the list's order in stored casing. |
| HeaderOrder.SortedByUnique | header_test.go:68-84 | Two sorted listings of the same names are equal. |
| HeaderOrder.DefaultOrderIsAscending | header_test.go:16-22 | Under an empty order list, emission order is ascending byte-wise order. |
| HeaderOrder.Insert | header_test.go:68-84 | Inserting a name into a sorted listing keeps it sorted and adds exactly that name, without duplicates. |
| SortedKeys.SortSet | header_test.go:16-22 | The listing of a set is strictly ascending byte-wise, holds exactly the set's elements, and has the set's size. |
| Strings.LessIsLexicographic | header_test.go:31-39 | The byte-wise comparison is lexicographic order: a proper prefix first, otherwise the first differing character decides. |
| Strings.EqualFoldIsLowerEqual | header_test.go:99-135 | Two names match case-insensitively exactly when their ASCII lower-cased forms are equal. |
| HeaderVectors.EmptyHeader | header_test.go:15 | An empty header writes nothing. |
| HeaderVectors.TwoNamesSorted | header_test.go:16-23 | Two names are written in byte-wise order. |
| HeaderVectors.ValuePerLine | header_test.go:24-30 | Three values of one name give three lines, in stored order. |
| HeaderVectors.ExcludedName | header_test.go:31-39 | An excluded name is not written; the others are written sorted. |
| HeaderVectors.ExcludedValues | header_test.go:40-48 | An excluded name with several values writes none of them. |
| HeaderVectors.AllExcluded | header_test.go:49-57 | With every name excluded, nothing is written. |
| HeaderVectors.EmptyValues | header_test.go:58-67 | Nil and empty lists write no line; each empty-string value writes its own `Name: ` line. |
| HeaderVectors.NineNames | header_test.go:68-85 | Nine names, one excluded, two values each, above the insertion-sort threshold, are written in byte-wise order. |
| HeaderVectors.HeaderOrderList | header_test.go:86-98 | A Header-Order list fixes the emission order, and the list itself is not written. |
| HeaderVectors.HeaderOrderCaseInsensitive | header_test.go:99-136 | Header-Order entries match stored names up to ASCII case. Lines keep the stored casing. |

## Left out

- The implementation file of `Header.WriteSubset` is not part of this model.
  - The behaviour is taken from the test table and its driver in `header_test.go`.
  - The Go source's `nil` value list is the empty sequence.
- The `io.Writer` sink and its write errors: the block is the returned string.
- The third argument of `WriteSubset` (`0` in the driver, `header_test.go` line 142) is not modelled; the model describes the behaviour at that value.
- The Go `exclude` is a `map[string]bool`; it is modelled as the set of its keys mapped to true, and a nil map is `{}`.
- The switch from insertion sort to a general sort above a small name count is a performance choice.
  - Every sort yields the same listing (`HeaderOrder.SortedByUnique`), so one sorted listing is modelled.
  - `Header.WriteSubsetByIteration` uses insertion sort throughout.
- The mutators and accessors (`Set`, `Add`, `Get`, `Del`, `Values`) are not modelled; the model takes the finished map.
- Strings are sequences of Unicode scalar values. Go strings that are not valid UTF-8 (such as obs-text bytes in values) are not modelled; on valid UTF-8, comparing scalar values orders names exactly as Go's byte-wise comparison does.
- Case-insensitive matching folds ASCII letters only. Unicode simple case folding of non-ASCII names is not modelled.
- Header.OrderKey: the value of the library's Header-Order constant is not modelled; the stand-in `"Header-Order:"` carries a colon, so it cannot clash with a valid field name.
- HeaderOrder.Resolve: stored names no list entry matches, and list entries matching several names, are not covered by `header_test.go`; the model uses a chosen policy for them, which keeps every stored name in the output:
  - each entry schedules every not yet scheduled name it matches, in byte-wise order;
  - a repeated entry, or any later entry matching a name an earlier entry matched, changes nothing: the first matching entry decides the name's rank (`HeaderOrder.RankIsFirstMatch`);
  - entries that match nothing are skipped;
  - unmatched names follow at the end in byte-wise order.
- An empty Header-Order list behaves as no list: byte-wise order.
- Exclusion applies under a Header-Order list as it does without one.
- Values and names are written verbatim. Any sanitising of CR or LF inside values is not modelled.
- Header.WriteSubsetReadsBack: it assumes names without ':' and values without CR. With those characters a block is still produced, but reading it back is ambiguous.
- `http_test.go`: it drives a live TLS server, an HTTP/2 client and a cookie jar. That is network I/O and concurrency with no sequential logic to state.
- `HeaderVectors`: five expected lines that hold long values are written as `name + ": " + value + "\r\n"` rather than as one literal. The text is the same.
