# data-flex array helpers in Dafny

data-flex is a single TypeScript module (`index.ts`) of seven helpers over a
generic array: `push`, `updateObjectAtIndex`, `removeAtIndex`,
`updateFieldInObject`, `updateFieldInAllObjects`, `findObjectByKey` and
`sortByKey`. Each one builds a new array from its argument and leaves the
argument alone. This project models all seven as Dafny functions over
sequences (module `DataFlex` in `DataFlex.dfy`, with the `Option` type in
`Wrappers.dfy`) and proves what each promises.

Modelling choices:

- An array is a `seq<T>`. Sequences are values, so "the input array is not
  changed" holds by construction. That covers the spread copy that
  `sortByKey` sorts.
- An object is a `Record<V>`, a `map<string, V>` from field name to value.
  The object spread that sets one field is the map update `obj[field := value]`.
  `SetsField` states that update field by field: same fields plus `field`,
  `field` now holds `value`, every other field unchanged.
- An index is an `int`. A negative or too-large index matches no position,
  as in the source's `map`/`filter` callbacks, so the result is the input.
- `findObjectByKey` returns `Option`: `None` stands for `undefined`. A record
  that lacks the field reads as `undefined` and never matches.
- Field values have one Dafny type `V` per array, so a record type whose
  fields have different types is modelled by choosing a sum type for `V`, as
  the examples do with `Value = Num(int) | Text(string)`.
- `sortByKey` accepts any field value type. The comparator's `>` on key
  values is modelled by a parameter `rank: V -> int` that places the values
  on the integers; only the key field is ranked, the other fields may hold
  anything. Every record must carry the key field, since the key is typed
  `keyof T`. The library sort is modelled by an insertion sort that uses the
  source's comparator as written. `ascending` defaults to `true`, as in the
  source.

## Model

| member | source | states |
|---|---|---|
| `DataFlex.Push` | index.ts:8-10 | the result is one longer than the input, starts with the whole input, and ends with the new element |
| `DataFlex.UpdateObjectAtIndex` | index.ts:20-22 | length is kept; for an index in range the result is the input with only that position replaced; for an out-of-range index the result is the input |
| `DataFlex.RemoveAtIndex` | index.ts:31-33 | for an index in range the result is the elements before it followed by the elements after it, one shorter than the input; for an out-of-range index the result is the input |
| `DataFlex.UpdateFieldInObject` | index.ts:44-46 | length is kept; for an index in range the record there gains the field with the new value and keeps every other field; every other record is unchanged; for an out-of-range index the result is the input |
| `DataFlex.UpdateFieldInAllObjects` | index.ts:56-58 | length is kept; every record gains the field with the new value and keeps every other field of the corresponding input record |
| `DataFlex.FindObjectByKey` | index.ts:68-70 | the result is `None` exactly when no record has the field equal to the value; otherwise it is the record at the first position where the field matches |
| `DataFlex.Matches` | index.ts:69 | a record matches exactly when setting its key field to the searched value would leave it unchanged, so a record that lacks the field never matches |
| `DataFlex.Compare` | index.ts:81 | the comparator returns only 1 or -1, and it is negative (puts `a` first) exactly when `a` is at most `b` ascending, or greater than `b` descending |
| `DataFlex.Insert` | index.ts:81 | inserting one record gives a sequence one longer that holds exactly the old records plus the new one, all carrying the key field |
| `DataFlex.InsertSorted` | index.ts:81 | inserting into a sequence sorted in the requested direction, where the comparator decides the position, keeps it sorted |
| `DataFlex.SortByKey` | index.ts:80-82 | the result is sorted by the key (non-decreasing when ascending, non-increasing otherwise) and holds the same multiset of records as the input |
| `DataFlex.CompareAgreesWithOrder` | index.ts:81 | the comparator puts `a` first only when `a`'s key may precede `b`'s in the requested direction, and for distinct keys it puts `a` first exactly when it must |
| `DataFlex.SortedPermutationUnique` | index.ts:80-82 | when equal keys imply equal records, two sequences sorted by the key that hold the same records are equal, so the sorted copy does not depend on how the sort treats ties |
| `DataFlex.SortByKeyOfSorted` | index.ts:80-82 | sorting a sequence already sorted in the requested direction returns it, when equal keys imply equal records |
| `DataFlex.DescendingIsReversedAscending` | index.ts:80-82 | when equal keys imply equal records, the descending sort is the ascending sort read backwards |
| `DataFlex.RemoveAfterPush` | index.ts:31-33 | removing the last position of a pushed array gives back the original array |
| `DataFlex.UpdateAfterPush` | index.ts:20-22 | replacing the element just pushed is the same as pushing the replacement |
| `DataFlex.RemoveAfterUpdate` | index.ts:31-33 | removing the index that was just replaced gives the same as removing it from the original, for every index |
| `DataFlex.UpdateWithSameObject` | index.ts:20-22 | replacing an element by itself gives the input back |
| `DataFlex.UpdateFieldIsUpdateObject` | index.ts:44-46 | setting a field of the record at an index in range is replacing that record by its updated copy |
| `DataFlex.SetsFieldIsMapUpdate` | index.ts:45 | the field-by-field description of the spread copy holds of exactly one record, the map with that field updated |
| `DataFlex.UpdateFieldInAllObjectsIdempotent` | index.ts:56-58 | setting the same field to the same value in every record twice gives the same array as doing it once |
| `DataFlex.UpdateFieldInAllAgreesWithOne` | index.ts:56-58 | at every position, updating all records gives the same record as updating just that position |
| `DataFlex.FindAfterUpdateAll` | index.ts:68-70 | after every record's field is set to a value, searching for that value finds the first record, or nothing in an empty array |
| `DataFlex.FindObjectByKeyUnique` | index.ts:68-70 | if position `j` holds the first matching record, the search returns exactly that record |
| `DataFlex.PushExample` | index.ts:8-10 | pushing 4 onto [1, 2, 3] gives [1, 2, 3, 4] |
| `DataFlex.RemoveAtIndexExample` | index.ts:31-33 | removing index 1 from ['a', 'b', 'c'] gives ['a', 'c'] |
| `DataFlex.UpdateFieldInObjectExample` | index.ts:44-46 | setting `name` to 'z' at index 1 changes only the second record |
| `DataFlex.FindObjectByKeyExample` | index.ts:68-70 | searching for `id` 2 finds the second record; searching for `id` 9 finds nothing |
| `DataFlex.SortByKeyAscendingExample` | index.ts:80-82 | with the direction left at its default, records with a numeric `n` (3, then 1) and a text `name` sort ascending to 1, 3 |
| `DataFlex.SortByKeyDescendingExample` | index.ts:80-82 | records with `n` = 3, 1, 2 sort descending to 3, 2, 1 |

## Left out

- The default export object (index.ts:84-92) only gathers the seven functions and holds no logic.
- DataFlex.SortByKey: the order of records with equal keys is not specified. The comparator never returns 0, so for equal keys it is inconsistent, and the order a JavaScript engine's sort then gives is implementation-defined. The model's insertion sort picks one order, and the contract promises only sorted plus permutation. The exact result is proved only when equal keys imply equal records.
- DataFlex.SortByKey: key values are compared through an integer `rank`, which assumes JavaScript's `>` is a total order on the key values present. JavaScript's `>` on mixed types, `NaN` or `undefined` keys, which is not such an order, is not modelled. Records that lack the key field are excluded by the precondition, following the key's `keyof T` type.
- DataFlex.FindObjectByKey: equality is Dafny value equality. JavaScript's `===` on object references, `NaN` and searches for the value `undefined` are not modelled.
- Object spread: prototypes, symbol keys, getters and the sharing between the shallow copy and the original are not modelled. A record is only its map of own fields.
- Indices that are not integers (such as 1.5) never equal a position, so they behave like out-of-range indices. The model takes `int` indices only.
