/**
 * The array helpers of data-flex (index.ts). Every helper returns a new
 * array and leaves its argument alone; here arrays are Dafny sequences,
 * which are values, so "the input is not changed" holds by construction.
 *
 * An object is modelled by its own fields: a map from field name to value.
 * The object spread `{ ...obj, [field]: value }` is then the map update
 * `obj[field := value]`. Indices are unbounded integers, so a negative or
 * too-large index is an ordinary input that matches no position.
 */
module DataFlex {

  import opened Wrappers

  /** An object with fields named by strings and holding values of type V. */
  type Record<V> = map<string, V>

  /** Whether `index` names a position of `s` (JS: some `currentIndex === index`). */
  predicate InRange<T>(s: seq<T>, index: int)
  {
    0 <= index < |s|
  }

  // ---------------------------------------------------------------------
  // push

  /** A new array: the elements of `s` in order, then `element`. */
  function Push<T>(s: seq<T>, element: T): (r: seq<T>)
    ensures |r| == |s| + 1
    ensures r[..|s|] == s
    ensures r[|s|] == element
  {
    s + [element]
  }

  // ---------------------------------------------------------------------
  // updateObjectAtIndex

  /** Maps each position to `item` if it is `index` and to the old element otherwise. */
  function UpdateObjectAtIndex<T>(s: seq<T>, index: int, item: T): (r: seq<T>)
    ensures |r| == |s|
    ensures InRange(s, index) ==> r == s[index := item]
    ensures !InRange(s, index) ==> r == s
  {
    seq(|s|, j requires 0 <= j < |s| => if j == index then item else s[j])
  }

  // ---------------------------------------------------------------------
  // removeAtIndex

  /**
   * Keeps the elements whose position is not `index`, walking the array
   * from the front: the head sits at position 0, and the positions of the
   * tail are one less than in the whole array.
   */
  function RemoveAtIndex<T>(s: seq<T>, index: int): (r: seq<T>)
    ensures InRange(s, index) ==> |r| == |s| - 1 && r == s[..index] + s[index + 1..]
    ensures !InRange(s, index) ==> r == s
    decreases |s|
  {
    if s == [] then []
    else
      var rest := RemoveAtIndex(s[1..], index - 1);
      if index == 0 then rest
      else
        assert InRange(s, index) ==> s[..index] + s[index + 1..] == [s[0]] + (s[1..][..index - 1] + s[1..][index..]);
        [s[0]] + rest
  }

  // ---------------------------------------------------------------------
  // updateFieldInObject / updateFieldInAllObjects

  /**
   * `after` is a spread copy of `before` with `field` set: it has the fields
   * of `before` plus `field`, maps `field` to `value` and agrees with
   * `before` elsewhere.
   */
  ghost predicate SetsField<V>(before: Record<V>, after: Record<V>, field: string, value: V)
  {
    && after.Keys == before.Keys + {field}
    && field in after && after[field] == value
    && forall g :: g in before && g != field ==> after[g] == before[g]
  }

  /** Maps the record at `index` to a copy with `field` set, and every other record to itself. */
  function UpdateFieldInObject<V>(s: seq<Record<V>>, index: int, field: string, value: V): (r: seq<Record<V>>)
    ensures |r| == |s|
    ensures InRange(s, index) ==> SetsField(s[index], r[index], field, value)
    ensures forall j :: 0 <= j < |s| && j != index ==> r[j] == s[j]
    ensures !InRange(s, index) ==> r == s
  {
    seq(|s|, j requires 0 <= j < |s| => if j == index then s[j][field := value] else s[j])
  }

  /** Maps every record to a copy with `field` set to `value`. */
  function UpdateFieldInAllObjects<V>(s: seq<Record<V>>, field: string, value: V): (r: seq<Record<V>>)
    ensures |r| == |s|
    ensures forall j :: 0 <= j < |s| ==> SetsField(s[j], r[j], field, value)
  {
    seq(|s|, j requires 0 <= j < |s| => s[j][field := value])
  }

  // ---------------------------------------------------------------------
  // findObjectByKey

  /**
   * The record's `key` field is strictly equal to `value`. A record without
   * the field reads as `undefined` and does not match; a search for the
   * value `undefined` itself (possible for an optional field) is not modelled.
   * Matching is the same as "setting the field to `value` changes nothing".
   */
  predicate Matches<V(==)>(obj: Record<V>, key: string, value: V)
    ensures Matches(obj, key, value) <==> obj[key := value] == obj
  {
    key in obj && obj[key] == value
  }

  /** `j` is the position of the first record of `s` that matches. */
  predicate FirstMatchAt<V(==)>(s: seq<Record<V>>, key: string, value: V, j: int)
  {
    && 0 <= j < |s|
    && Matches(s[j], key, value)
    && forall i :: 0 <= i < j ==> !Matches(s[i], key, value)
  }

  /** The first record, in array order, that matches; `None` stands for `undefined`. */
  function FindObjectByKey<V(==)>(s: seq<Record<V>>, key: string, value: V): (r: Option<Record<V>>)
    ensures r.None? <==> forall j :: 0 <= j < |s| ==> !Matches(s[j], key, value)
    ensures r.Some? ==> exists j :: FirstMatchAt(s, key, value, j) && r.value == s[j]
  {
    if s == [] then None
    else if Matches(s[0], key, value) then
      assert FirstMatchAt(s, key, value, 0);
      Some(s[0])
    else
      var r := FindObjectByKey(s[1..], key, value);
      assert r.Some? ==> exists j :: FirstMatchAt(s, key, value, j) && r.value == s[j] by {
        if r.Some? {
          var j :| FirstMatchAt(s[1..], key, value, j) && r.value == s[1..][j];
          assert FirstMatchAt(s, key, value, j + 1);
        }
      }
      r
  }

  // ---------------------------------------------------------------------
  // sortByKey

  /**
   * The sort's comparator on two key values: 1 when `a` is greater and -1
   * otherwise, negated for descending order. A negative result puts `a` first.
   */
  function Compare(a: int, b: int, ascending: bool): (r: int)
    ensures r == 1 || r == -1
    ensures r < 0 <==> (if ascending then a <= b else a > b)
  {
    (if a > b then 1 else -1) * (if ascending then 1 else -1)
  }

  /** Key `a` may come before key `b` in the requested direction. */
  predicate InOrder(a: int, b: int, ascending: bool)
  {
    if ascending then a <= b else a >= b
  }

  /**
   * The sort key of a record: its `key` field, placed on the integers by
   * `rank` in the order JavaScript's `>` gives the field's values.
   */
  function KeyOf<V>(obj: Record<V>, key: string, rank: V -> int): int
    requires key in obj
  {
    rank(obj[key])
  }

  /** Every record carries the sort field (the field is a `keyof T`). */
  predicate HasField<V>(s: seq<Record<V>>, key: string)
  {
    forall j :: 0 <= j < |s| ==> key in s[j]
  }

  /** Non-decreasing (ascending) or non-increasing (descending) by `key`. */
  predicate SortedByKey<V>(s: seq<Record<V>>, key: string, rank: V -> int, ascending: bool)
  {
    && HasField(s, key)
    && forall i, j :: 0 <= i < j < |s| ==> InOrder(KeyOf(s[i], key, rank), KeyOf(s[j], key, rank), ascending)
  }

  /**
   * Records with equal keys are equal records: the situation in which the
   * order of the sorted copy is fully determined.
   */
  ghost predicate KeyIdentifies<V>(s: seq<Record<V>>, key: string, rank: V -> int)
  {
    forall x, y :: x in s && y in s && key in x && key in y && KeyOf(x, key, rank) == KeyOf(y, key, rank) ==> x == y
  }

  /**
   * Inserts `x` into `t` ahead of the first record that the comparator puts
   * after `x`.
   */
  function Insert<V>(x: Record<V>, t: seq<Record<V>>, key: string, rank: V -> int, ascending: bool): (r: seq<Record<V>>)
    requires key in x && HasField(t, key)
    ensures |r| == |t| + 1
    ensures HasField(r, key)
    ensures multiset(r) == multiset(t) + multiset{x}
  {
    if t == [] then [x]
    else if Compare(KeyOf(x, key, rank), KeyOf(t[0], key, rank), ascending) < 0 then [x] + t
    else
      var rest := Insert(x, t[1..], key, rank, ascending);
      assert multiset([t[0]] + rest) == multiset(t) + multiset{x} by {
        assert t == [t[0]] + t[1..];
        assert multiset(t) == multiset{t[0]} + multiset(t[1..]);
        assert multiset([t[0]] + rest) == multiset{t[0]} + multiset(rest);
      }
      [t[0]] + rest
  }

  /** Inserting into a sorted sequence keeps it sorted; the new head is `x` or the old head. */
  lemma {:induction false} InsertSorted<V>(x: Record<V>, t: seq<Record<V>>, key: string, rank: V -> int, ascending: bool)
    requires key in x && SortedByKey(t, key, rank, ascending)
    ensures SortedByKey(Insert(x, t, key, rank, ascending), key, rank, ascending)
    ensures Insert(x, t, key, rank, ascending)[0] == x || (t != [] && Insert(x, t, key, rank, ascending)[0] == t[0])
  {
    if t == [] {
    } else if Compare(KeyOf(x, key, rank), KeyOf(t[0], key, rank), ascending) < 0 {
      CompareAgreesWithOrder(KeyOf(x, key, rank), KeyOf(t[0], key, rank), ascending);
      PrependSorted(x, t, key, rank, ascending);
    } else {
      TailSorted(t, key, rank, ascending);
      InsertSorted(x, t[1..], key, rank, ascending);
      var rest := Insert(x, t[1..], key, rank, ascending);
      assert InOrder(KeyOf(t[0], key, rank), KeyOf(rest[0], key, rank), ascending) by {
        if rest[0] == x {
          CompareAgreesWithOrder(KeyOf(x, key, rank), KeyOf(t[0], key, rank), ascending);
        } else {
          assert rest[0] == t[1];
        }
      }
      PrependSorted(t[0], rest, key, rank, ascending);
    }
  }

  /** The tail of a sorted sequence is sorted. */
  lemma TailSorted<V>(t: seq<Record<V>>, key: string, rank: V -> int, ascending: bool)
    requires t != [] && SortedByKey(t, key, rank, ascending)
    ensures SortedByKey(t[1..], key, rank, ascending)
  {
  }

  /** A record that may precede the head of a sorted sequence may precede all of it. */
  lemma PrependSorted<V>(h: Record<V>, t: seq<Record<V>>, key: string, rank: V -> int, ascending: bool)
    requires key in h && SortedByKey(t, key, rank, ascending)
    requires t != [] ==> InOrder(KeyOf(h, key, rank), KeyOf(t[0], key, rank), ascending)
    ensures SortedByKey([h] + t, key, rank, ascending)
  {
  }

  /**
   * Sorts a copy of the array by `key` (ascending unless told otherwise),
   * comparing the key values through `rank`. The library sort is modelled by an insertion sort driven by the same
   * comparator; ties come out in whatever order that gives.
   */
  function SortByKey<V>(s: seq<Record<V>>, key: string, rank: V -> int, ascending: bool := true): (r: seq<Record<V>>)
    requires HasField(s, key)
    ensures SortedByKey(r, key, rank, ascending)
    ensures multiset(r) == multiset(s)
  {
    if s == [] then []
    else
      var rest := SortByKey(s[1..], key, rank, ascending);
      InsertSorted(s[0], rest, key, rank, ascending);
      assert s == [s[0]] + s[1..];
      Insert(s[0], rest, key, rank, ascending)
  }

  /** The comparator agrees with `InOrder`: it puts `a` first only when `a` may come first. */
  lemma CompareAgreesWithOrder(a: int, b: int, ascending: bool)
    ensures Compare(a, b, ascending) < 0 ==> InOrder(a, b, ascending)
    ensures Compare(a, b, ascending) > 0 ==> InOrder(b, a, ascending)
    ensures a != b ==> (Compare(a, b, ascending) < 0 <==> !InOrder(b, a, ascending))
  {
  }

  /**
   * When equal keys mean equal records, two sequences that are both sorted
   * by `key` and hold the same records are the same sequence: any correct
   * sort gives the same result, whatever it does with ties.
   */
  lemma {:induction false} SortedPermutationUnique<V>(a: seq<Record<V>>, b: seq<Record<V>>, key: string, rank: V -> int, ascending: bool)
    requires SortedByKey(a, key, rank, ascending) && SortedByKey(b, key, rank, ascending)
    requires multiset(a) == multiset(b)
    requires KeyIdentifies(a, key, rank)
    ensures a == b
  {
    if a == [] {
      assert |multiset(b)| == 0;
    } else {
      SortedPermutationsShareHead(a, b, key, rank, ascending);
      assert a == [a[0]] + a[1..];
      assert b == [b[0]] + b[1..];
      assert multiset(a[1..]) == multiset(a) - multiset{a[0]};
      assert multiset(b[1..]) == multiset(b) - multiset{b[0]};
      TailSorted(a, key, rank, ascending);
      TailSorted(b, key, rank, ascending);
      assert KeyIdentifies(a[1..], key, rank) by {
        forall x, y | x in a[1..] && y in a[1..] && key in x && key in y && KeyOf(x, key, rank) == KeyOf(y, key, rank)
          ensures x == y
        {
          assert x in a && y in a;
        }
      }
      SortedPermutationUnique(a[1..], b[1..], key, rank, ascending);
    }
  }

  /** Two sorted sequences holding the same records start with the same record. */
  lemma SortedPermutationsShareHead<V>(a: seq<Record<V>>, b: seq<Record<V>>, key: string, rank: V -> int, ascending: bool)
    requires SortedByKey(a, key, rank, ascending) && SortedByKey(b, key, rank, ascending)
    requires multiset(a) == multiset(b)
    requires KeyIdentifies(a, key, rank)
    requires a != []
    ensures b != [] && a[0] == b[0]
  {
    assert a[0] in multiset(b);
    var j :| 0 <= j < |b| && b[j] == a[0];
    assert b[0] in multiset(a);
    var i :| 0 <= i < |a| && a[i] == b[0];
    assert InOrder(KeyOf(a[0], key, rank), KeyOf(a[i], key, rank), ascending);
    assert InOrder(KeyOf(b[0], key, rank), KeyOf(b[j], key, rank), ascending);
    assert a[0] in a && a[i] in a;
  }

  /**
   * Sorting an array that is already in the requested order gives it back,
   * when equal keys mean equal records.
   */
  lemma SortByKeyOfSorted<V>(s: seq<Record<V>>, key: string, rank: V -> int, ascending: bool)
    requires SortedByKey(s, key, rank, ascending) && KeyIdentifies(s, key, rank)
    ensures SortByKey(s, key, rank, ascending) == s
  {
    SortedPermutationUnique(s, SortByKey(s, key, rank, ascending), key, rank, ascending);
  }

  /** The sequence read back to front. */
  function Reverse<T>(s: seq<T>): (r: seq<T>)
    ensures |r| == |s|
    ensures forall i :: 0 <= i < |s| ==> r[i] == s[|s| - 1 - i]
    ensures multiset(r) == multiset(s)
  {
    if s == [] then []
    else
      assert s == [s[0]] + s[1..];
      Reverse(s[1..]) + [s[0]]
  }

  /**
   * Descending order is ascending order read backwards, when equal keys mean
   * equal records (with ties the two orders need not mirror each other).
   */
  lemma DescendingIsReversedAscending<V>(s: seq<Record<V>>, key: string, rank: V -> int)
    requires HasField(s, key) && KeyIdentifies(s, key, rank)
    ensures SortByKey(s, key, rank, false) == Reverse(SortByKey(s, key, rank, true))
  {
    var up := SortByKey(s, key, rank, true);
    var down := SortByKey(s, key, rank, false);
    ReverseOfAscendingIsDescending(up, key, rank);
    KeyIdentifiesPermutation(s, down, key, rank);
    SortedPermutationUnique(down, Reverse(up), key, rank, false);
  }

  /** An ascending sequence read backwards is descending. */
  lemma ReverseOfAscendingIsDescending<V>(up: seq<Record<V>>, key: string, rank: V -> int)
    requires SortedByKey(up, key, rank, true)
    ensures SortedByKey(Reverse(up), key, rank, false)
  {
  }

  /** Whether keys identify records depends only on which records there are. */
  lemma KeyIdentifiesPermutation<V>(s: seq<Record<V>>, t: seq<Record<V>>, key: string, rank: V -> int)
    requires KeyIdentifies(s, key, rank) && multiset(t) == multiset(s)
    ensures KeyIdentifies(t, key, rank)
  {
    forall x, y | x in t && y in t && key in x && key in y && KeyOf(x, key, rank) == KeyOf(y, key, rank)
      ensures x == y
    {
      assert x in multiset(t) && y in multiset(t);
      assert x in s && y in s;
    }
  }

  // ---------------------------------------------------------------------
  // How the helpers fit together

  /** Removing the element just pushed gives back the array. */
  lemma RemoveAfterPush<T>(s: seq<T>, element: T)
    ensures RemoveAtIndex(Push(s, element), |s|) == s
  {
  }

  /** Replacing the element just pushed is the same as pushing the replacement. */
  lemma UpdateAfterPush<T>(s: seq<T>, element: T, item: T)
    ensures UpdateObjectAtIndex(Push(s, element), |s|, item) == Push(s, item)
  {
  }

  /** The element a replacement puts at `index` is gone again once `index` is removed. */
  lemma RemoveAfterUpdate<T>(s: seq<T>, index: int, item: T)
    ensures RemoveAtIndex(UpdateObjectAtIndex(s, index, item), index) == RemoveAtIndex(s, index)
  {
  }

  /** Replacing an element by itself changes nothing. */
  lemma UpdateWithSameObject<T>(s: seq<T>, index: int)
    requires InRange(s, index)
    ensures UpdateObjectAtIndex(s, index, s[index]) == s
  {
  }

  /** Setting one field of the record at `index` replaces that record by its updated copy. */
  lemma UpdateFieldIsUpdateObject<V>(s: seq<Record<V>>, index: int, field: string, value: V)
    requires InRange(s, index)
    ensures UpdateFieldInObject(s, index, field, value) == UpdateObjectAtIndex(s, index, s[index][field := value])
  {
  }

  /** `SetsField` pins the new record down: it is the map update. */
  lemma SetsFieldIsMapUpdate<V>(before: Record<V>, after: Record<V>, field: string, value: V)
    ensures SetsField(before, after, field, value) <==> after == before[field := value]
  {
  }

  /** Setting a field in every record, twice, is the same as doing it once. */
  lemma UpdateFieldInAllObjectsIdempotent<V>(s: seq<Record<V>>, field: string, value: V)
    ensures UpdateFieldInAllObjects(UpdateFieldInAllObjects(s, field, value), field, value)
         == UpdateFieldInAllObjects(s, field, value)
  {
    var once := UpdateFieldInAllObjects(s, field, value);
    var twice := UpdateFieldInAllObjects(once, field, value);
    forall j | 0 <= j < |s| ensures twice[j] == once[j] {
      SetsFieldIsMapUpdate(s[j], once[j], field, value);
      SetsFieldIsMapUpdate(once[j], twice[j], field, value);
    }
  }

  /** Updating every record agrees, position by position, with updating that one record. */
  lemma UpdateFieldInAllAgreesWithOne<V>(s: seq<Record<V>>, index: int, field: string, value: V)
    requires InRange(s, index)
    ensures UpdateFieldInAllObjects(s, field, value)[index] == UpdateFieldInObject(s, index, field, value)[index]
  {
  }

  /** After every record's field is set to `value`, a search for it finds the first record. */
  lemma FindAfterUpdateAll<V>(s: seq<Record<V>>, key: string, value: V)
    ensures FindObjectByKey(UpdateFieldInAllObjects(s, key, value), key, value)
         == if s == [] then None else Some(s[0][key := value])
  {
  }

  /** A search finds a record only where `Matches` holds, and finds the record at the first such position. */
  lemma FindObjectByKeyUnique<V>(s: seq<Record<V>>, key: string, value: V, j: int)
    requires FirstMatchAt(s, key, value, j)
    ensures FindObjectByKey(s, key, value) == Some(s[j])
  {
  }

  // ---------------------------------------------------------------------
  // Worked examples

  lemma PushExample()
    ensures Push([1, 2, 3], 4) == [1, 2, 3, 4]
  {
  }

  lemma RemoveAtIndexExample()
    ensures RemoveAtIndex(['a', 'b', 'c'], 1) == ['a', 'c']
  {
  }

  lemma FindObjectByKeyExample()
    ensures FindObjectByKey([map["id" := 1], map["id" := 2]], "id", 2) == Some(map["id" := 2])
    ensures FindObjectByKey([map["id" := 1]], "id", 9) == None
  {
  }

  /**
   * A field value of a record whose fields have different types: the records
   * below carry a numeric `id` or `n` and a text `name`.
   */
  datatype Value = Num(n: int) | Text(t: string)

  /** Numbers in their own order; text is never used as a sort key below. */
  function NumRank(v: Value): int
  {
    if v.Num? then v.n else 0
  }

  lemma SortByKeyAscendingExample()
    ensures SortByKey([map["n" := Num(3), "name" := Text("c")], map["n" := Num(1), "name" := Text("a")]], "n", NumRank)
         == [map["n" := Num(1), "name" := Text("a")], map["n" := Num(3), "name" := Text("c")]]
  {
  }

  lemma SortByKeyDescendingExample()
    ensures SortByKey([map["n" := 3], map["n" := 1], map["n" := 2]], "n", x => x, false)
         == [map["n" := 3], map["n" := 2], map["n" := 1]]
  {
  }

  lemma UpdateFieldInObjectExample()
    ensures UpdateFieldInObject([map["id" := Num(1), "name" := Text("x")], map["id" := Num(2), "name" := Text("y")]], 1, "name", Text("z"))
         == [map["id" := Num(1), "name" := Text("x")], map["id" := Num(2), "name" := Text("z")]]
  {
    assert map["id" := Num(2), "name" := Text("y")]["name" := Text("z")] == map["id" := Num(2), "name" := Text("z")];
  }
}
