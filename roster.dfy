/**
 * Student records and the operations on the roster: the new record that
 * "Add Student" appends, toggling one attendance cell, deletion by index and
 * the stable sort by name that runs when a name field loses focus.
 */
module Roster {
  import opened NameOrder

  /** One row of the register: `attendance[i]` is the mark for the i-th weekend day. */
  datatype Student = Student(name: string, attendance: seq<bool>)

  /** The record "Add Student" appends: no name yet, absent on every day shown. */
  function NewStudent(dayCount: nat): (st: Student)
    ensures st.name == ""
    ensures |st.attendance| == dayCount
    ensures forall i :: 0 <= i < dayCount ==> !st.attendance[i]
  {
    Student("", seq(dayCount, _ => false))
  }

  /**
   * The attendance array after `attendance[d] = !attendance[d]`. A cell past
   * the end of the array (the range can grow after the record was made) reads
   * as `undefined`, so it becomes true and the array grows to d + 1; the gap
   * left behind reads as absent, which is how the cells in it are modelled.
   */
  function Toggled(att: seq<bool>, d: nat): (r: seq<bool>)
    ensures |r| == if d < |att| then |att| else d + 1
    ensures r[d] == !(d < |att| && att[d])
    ensures forall i :: 0 <= i < |r| && i != d ==> r[i] == (i < |att| && att[i])
  {
    if d < |att| then att[d := !att[d]]
    else att + seq(d - |att|, _ => false) + [true]
  }

  /** Toggling a cell the record already has twice gives the record back. */
  lemma ToggleTwice(att: seq<bool>, d: nat)
    requires d < |att|
    ensures Toggled(Toggled(att, d), d) == att
  {
  }

  /** Toggling past the end twice leaves the record padded with absences. */
  lemma ToggleTwicePastEnd(att: seq<bool>, d: nat)
    requires |att| <= d
    ensures Toggled(Toggled(att, d), d) == att + seq(d + 1 - |att|, _ => false)
  {
    var r := Toggled(Toggled(att, d), d);
    var p := att + seq(d + 1 - |att|, _ => false);
    assert |r| == |p|;
    forall i | 0 <= i < |r|
      ensures r[i] == p[i]
    {
    }
  }

  /** `s.filter((_, i) => i !== index)`, walked from the front. */
  function DropIndex<T>(s: seq<T>, index: int): (r: seq<T>)
    ensures |r| == if 0 <= index < |s| then |s| - 1 else |s|
  {
    if |s| == 0 then []
    else (if index == 0 then [] else [s[0]]) + DropIndex(s[1..], index - 1)
  }

  /**
   * Deleting removes exactly position `index` and keeps the others in their
   * order; an index outside the roster deletes nothing.
   */
  lemma {:induction false} DropIndexRemovesOne<T>(s: seq<T>, index: int)
    ensures DropIndex(s, index) == if 0 <= index < |s| then s[..index] + s[index + 1..] else s
  {
    if |s| > 0 {
      var rest := DropIndex(s[1..], index - 1);
      DropIndexRemovesOne(s[1..], index - 1);
      if index == 0 {
        assert DropIndex(s, index) == rest;
        assert s[1..] == s[index + 1..];
      } else if 0 < index < |s| {
        assert DropIndex(s, index) == [s[0]] + rest;
        assert s[..index] == [s[0]] + s[1..][..index - 1];
        assert s[index + 1..] == s[1..][index..];
      } else {
        assert DropIndex(s, index) == [s[0]] + rest;
        assert s == [s[0]] + s[1..];
      }
    }
  }

  predicate SortedByName(s: seq<Student>) {
    forall i, j :: 0 <= i < j < |s| ==> NameLe(s[i].name, s[j].name)
  }

  /**
   * Inserts `x` into `t` after every record whose name does not sort after
   * x's: the step of a stable insertion sort where x comes later than all of t.
   */
  function InsertByName(x: Student, t: seq<Student>): (r: seq<Student>)
    ensures |r| == |t| + 1
  {
    if |t| == 0 then [x]
    else if NameLe(t[|t| - 1].name, x.name) then t + [x]
    else InsertByName(x, t[..|t| - 1]) + [t[|t| - 1]]
  }

  /** The roster as a stable sort by name (Array.prototype.sort is stable) leaves it. */
  function SortByName(s: seq<Student>): (r: seq<Student>)
    ensures |r| == |s|
  {
    if |s| == 0 then []
    else InsertByName(s[|s| - 1], SortByName(s[..|s| - 1]))
  }

  lemma {:induction false} InsertByNamePermutes(x: Student, t: seq<Student>)
    ensures multiset(InsertByName(x, t)) == multiset(t) + multiset{x}
  {
    if |t| > 0 && !NameLe(t[|t| - 1].name, x.name) {
      InsertByNamePermutes(x, t[..|t| - 1]);
      assert t == t[..|t| - 1] + [t[|t| - 1]];
    }
  }

  /** Sorting neither loses nor duplicates a record. */
  lemma {:induction false} SortByNamePermutes(s: seq<Student>)
    ensures multiset(SortByName(s)) == multiset(s)
  {
    if |s| > 0 {
      SortByNamePermutes(s[..|s| - 1]);
      InsertByNamePermutes(s[|s| - 1], SortByName(s[..|s| - 1]));
      LastOff(s);
    }
  }

  /** A non-empty sequence's multiset splits into its front part and its last element. */
  lemma LastOff<T>(s: seq<T>)
    requires |s| > 0
    ensures multiset(s) == multiset(s[..|s| - 1]) + multiset{s[|s| - 1]}
  {
    assert s == s[..|s| - 1] + [s[|s| - 1]];
  }

  lemma {:induction false} InsertByNameSorted(x: Student, t: seq<Student>)
    requires SortedByName(t)
    ensures SortedByName(InsertByName(x, t))
  {
    if |t| > 0 {
      var last := t[|t| - 1];
      var init := t[..|t| - 1];
      if NameLe(last.name, x.name) {
        forall i | 0 <= i < |t|
          ensures NameLe(t[i].name, x.name)
        {
          if i < |t| - 1 {
            NameLeTransitive(t[i].name, last.name, x.name);
          }
        }
      } else {
        NameLeTotal(last.name, x.name);
        InsertByNameSorted(x, init);
        InsertByNamePermutes(x, init);
        var ins := InsertByName(x, init);
        forall i | 0 <= i < |ins|
          ensures NameLe(ins[i].name, last.name)
        {
          assert ins[i] in multiset(ins);
          if ins[i] != x {
            assert ins[i] in init;
          }
        }
      }
    }
  }

  /** After the sort, names are in non-decreasing order. */
  lemma {:induction false} SortByNameSorted(s: seq<Student>)
    ensures SortedByName(SortByName(s))
  {
    if |s| > 0 {
      SortByNameSorted(s[..|s| - 1]);
      InsertByNameSorted(s[|s| - 1], SortByName(s[..|s| - 1]));
    }
  }

  /** The records named `k`, in roster order. */
  function WithName(s: seq<Student>, k: string): seq<Student>
  {
    if |s| == 0 then []
    else WithName(s[..|s| - 1], k) + (if s[|s| - 1].name == k then [s[|s| - 1]] else [])
  }

  lemma {:induction false} InsertByNameStable(x: Student, t: seq<Student>, k: string)
    ensures WithName(InsertByName(x, t), k) ==
      WithName(t, k) + (if x.name == k then [x] else [])
  {
    if |t| == 0 {
      assert WithName([x], k) == WithName([x][..0], k) + (if x.name == k then [x] else []);
    } else {
      var last := t[|t| - 1];
      var init := t[..|t| - 1];
      var own := if x.name == k then [x] else [];
      if NameLe(last.name, x.name) {
        assert (t + [x])[..|t|] == t;
        assert WithName(t + [x], k) == WithName(t, k) + own;
      } else {
        NameLeReflexive(x.name);
        InsertByNameStable(x, init, k);
        var ins := InsertByName(x, init);
        var other := if last.name == k then [last] else [];
        assert (ins + [last])[..|ins|] == ins;
        assert WithName(ins + [last], k) == WithName(init, k) + own + other;
        assert own == [] || other == [];
        assert WithName(t, k) == WithName(init, k) + other;
      }
    }
  }

  /** Records that share a name keep their relative order: the sort is stable. */
  lemma {:induction false} SortByNameStable(s: seq<Student>, k: string)
    ensures WithName(SortByName(s), k) == WithName(s, k)
  {
    if |s| > 0 {
      SortByNameStable(s[..|s| - 1], k);
      InsertByNameStable(s[|s| - 1], SortByName(s[..|s| - 1]), k);
    }
  }

  /** A roster already in name order is left exactly as it is. */
  lemma {:induction false} SortByNameKeepsSorted(s: seq<Student>)
    requires SortedByName(s)
    ensures SortByName(s) == s
  {
    if |s| > 0 {
      var init := s[..|s| - 1];
      assert SortedByName(init);
      SortByNameKeepsSorted(init);
      assert s == init + [s[|s| - 1]];
      if |init| > 0 {
        assert NameLe(init[|init| - 1].name, s[|s| - 1].name);
      }
    }
  }

  /** Blurring a name field twice in a row sorts no further than once. */
  lemma SortByNameIdempotent(s: seq<Student>)
    ensures SortByName(SortByName(s)) == SortByName(s)
  {
    SortByNameSorted(s);
    SortByNameKeepsSorted(SortByName(s));
  }

  /**
   * The insertion point: x lands right after position j - 1 when the record
   * there sorts no later than x and every record from j on sorts after it.
   */
  lemma {:induction false} InsertByNameAt(x: Student, t: seq<Student>, j: nat)
    requires j <= |t|
    requires j == 0 || NameLe(t[j - 1].name, x.name)
    requires forall m :: j <= m < |t| ==> !NameLe(t[m].name, x.name)
    ensures InsertByName(x, t) == t[..j] + [x] + t[j..]
  {
    if j == |t| {
      assert t[..j] == t && t[j..] == [];
    } else {
      var init, last := t[..|t| - 1], t[|t| - 1];
      InsertByNameAt(x, init, j);
      assert InsertByName(x, t) == InsertByName(x, init) + [last];
      assert init[..j] == t[..j];
      assert init[j..] + [last] == t[j..];
      assert init[..j] + [x] + init[j..] + [last] == t[..j] + [x] + (init[j..] + [last]);
    }
  }

  /**
   * The array during the shift loop: the prefix t with a hole at position j,
   * followed by the untouched records after position i.
   */
  function WithHole(t: seq<Student>, j: nat, h: Student, rest: seq<Student>): (r: seq<Student>)
    requires j <= |t|
    ensures |r| == |t| + 1 + |rest|
  {
    t[..j] + [h] + (t[j..] + rest)
  }

  /** The record at each position of WithHole. */
  lemma WithHoleAt(t: seq<Student>, j: nat, h: Student, rest: seq<Student>, m: nat)
    requires j <= |t| && m < |t| + 1 + |rest|
    ensures WithHole(t, j, h, rest)[m] ==
      if m < j then t[m] else if m == j then h else if m <= |t| then t[m - 1] else rest[m - |t| - 1]
  {
  }

  /** Writing into the hole. */
  lemma WriteHole(t: seq<Student>, j: nat, h: Student, rest: seq<Student>, v: Student)
    requires j <= |t|
    ensures WithHole(t, j, h, rest)[j := v] == WithHole(t, j, v, rest)
  {
    var r, w := WithHole(t, j, h, rest)[j := v], WithHole(t, j, v, rest);
    forall m | 0 <= m < |r|
      ensures r[m] == w[m]
    {
      WithHoleAt(t, j, h, rest, m);
      WithHoleAt(t, j, v, rest, m);
    }
  }

  /** Copying the record left of the hole into it moves the hole one place left. */
  lemma ShiftHole(t: seq<Student>, j: nat, rest: seq<Student>)
    requires 0 < j <= |t|
    ensures WithHole(t, j, t[j - 1], rest) == WithHole(t, j - 1, t[j - 1], rest)
  {
    var r, w := WithHole(t, j, t[j - 1], rest), WithHole(t, j - 1, t[j - 1], rest);
    forall m | 0 <= m < |r|
      ensures r[m] == w[m]
    {
      WithHoleAt(t, j, t[j - 1], rest, m);
      WithHoleAt(t, j - 1, t[j - 1], rest, m);
    }
  }

  /** With x in the hole, the first |t| + 1 records are t with x inserted at j. */
  lemma FilledHole(t: seq<Student>, j: nat, x: Student, rest: seq<Student>)
    requires j <= |t|
    ensures WithHole(t, j, x, rest)[..|t| + 1] == t[..j] + [x] + t[j..]
    ensures WithHole(t, j, x, rest)[|t| + 1..] == rest
  {
    var r := WithHole(t, j, x, rest);
    var p := t[..j] + [x] + t[j..];
    assert r == p + rest;
  }

  /**
   * Inserts the record at position i into the sorted prefix a[..i], shifting
   * right every record of the prefix whose name sorts strictly after it.
   */
  method InsertIntoPrefix(a: array<Student>, i: nat)
    requires i < a.Length
    modifies a
    ensures a[..i + 1] == InsertByName(old(a[i]), old(a[..i]))
    ensures a[i + 1..] == old(a[i + 1..])
  {
    var x := a[i];
    ghost var t := a[..i];
    ghost var rest := a[i + 1..];
    var j := i;
    assert a[..] == WithHole(t, j, x, rest);
    while j > 0 && !NameLe(a[j - 1].name, x.name)
      invariant 0 <= j <= i
      invariant a[..] == WithHole(t, j, a[j], rest)
      invariant forall m :: j <= m < i ==> !NameLe(t[m].name, x.name)
    {
      WithHoleAt(t, j, a[j], rest, j - 1);
      WriteHole(t, j, a[j], rest, a[j - 1]);
      ShiftHole(t, j, rest);
      a[j] := a[j - 1];
      j := j - 1;
    }
    if j > 0 {
      WithHoleAt(t, j, a[j], rest, j - 1);
    }
    WriteHole(t, j, a[j], rest, x);
    a[j] := x;
    InsertByNameAt(x, t, j);
    FilledHole(t, j, x, rest);
  }

  /**
   * `students.sort((a, b) => a.name.localeCompare(b.name))` on the copied
   * array: an in-place stable insertion sort.
   */
  method SortStudents(a: array<Student>)
    modifies a
    ensures a[..] == SortByName(old(a[..]))
  {
    ghost var orig := a[..];
    var i := 0;
    while i < a.Length
      invariant 0 <= i <= a.Length
      invariant a[..i] == SortByName(orig[..i])
      invariant a[i..] == orig[i..]
    {
      ghost var pre := a[..];
      assert pre[i] == orig[i];
      assert pre[i + 1..] == pre[i..][1..] == orig[i..][1..] == orig[i + 1..];
      InsertIntoPrefix(a, i);
      assert orig[..i + 1][..i] == orig[..i] && orig[..i + 1][i] == orig[i];
      i := i + 1;
    }
    assert orig[..a.Length] == orig;
    assert a[..a.Length] == a[..];
  }
}
