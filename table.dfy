/** The age table: members sorted in place by age, oldest first, then one row per member
    appended to a freshly cleared table body, each row labelled by the age threshold. */
module Table {
  import opened Calendar
  import opened Members

  /** From this age on a member is labelled "Too Old". */
  const AgeLimit: int := 65

  datatype Status = TooOld | FitToServe

  /** One table row: the member's cells, the computed age and the status label. */
  datatype Row = Row(member: Member, age: int, status: Status)

  /** The text shown in the status cell. */
  function Label(s: Status): string
  {
    match s
    case TooOld => "\U{26A0}\U{FE0F} Too Old"
    case FitToServe => "\U{1F44D}\U{1F3FB} Fit To Serve"
  }

  /** "Too Old" exactly from the age limit on. */
  function StatusFor(age: int): (s: Status)
    ensures s == TooOld <==> age >= AgeLimit
    ensures s == FitToServe <==> age < AgeLimit
  {
    if age >= AgeLimit then TooOld else FitToServe
  }

  /** A member's age on `today`. */
  function Age(m: Member, today: Date): (age: int)
    ensures age == today.year - m.birthDate.year - (if BirthdayStillAhead(m.birthDate, today) then 1 else 0)
  {
    CalculateAge(m.birthDate, today)
  }

  /** The row shown for one member. */
  function RowFor(m: Member, today: Date): (r: Row)
    ensures r.member == m && r.age == Age(m, today)
    ensures r.status == TooOld <==> Age(m, today) >= AgeLimit
  {
    var age := Age(m, today);
    Row(m, age, StatusFor(age))
  }

  /** The rows of a table listing `ms` in order. */
  function Rows(ms: seq<Member>, today: Date): (rows: seq<Row>)
    ensures |rows| == |ms|
    ensures forall i :: 0 <= i < |ms| ==> rows[i] == RowFor(ms[i], today)
  {
    if ms == [] then [] else Rows(ms[..|ms| - 1], today) + [RowFor(ms[|ms| - 1], today)]
  }

  /** Oldest first: ages never increase along `ms`. */
  predicate OldestFirst(ms: seq<Member>, today: Date)
  {
    forall i, j :: 0 <= i < j < |ms| ==> Age(ms[i], today) >= Age(ms[j], today)
  }

  /** Inserts `x` into `ms`, behind every trailing member at least as old as `x` and before
      the trailing members younger than it (the step of a stable insertion sort). */
  function Insert(ms: seq<Member>, x: Member, today: Date): (r: seq<Member>)
    ensures |r| == |ms| + 1 && x in r
  {
    if ms == [] || Age(ms[|ms| - 1], today) >= Age(x, today) then ms + [x]
    else Insert(ms[..|ms| - 1], x, today) + [ms[|ms| - 1]]
  }

  /** `ms` sorted by age, oldest first, members of equal age kept in their order in `ms`. */
  function SortedByAge(ms: seq<Member>, today: Date): (r: seq<Member>)
    ensures |r| == |ms|
  {
    if ms == [] then [] else Insert(SortedByAge(ms[..|ms| - 1], today), ms[|ms| - 1], today)
  }

  /** The members of `ms` whose age is `age`, in their order in `ms`. */
  function OfAge(ms: seq<Member>, age: int, today: Date): seq<Member>
  {
    if ms == [] then []
    else OfAge(ms[..|ms| - 1], age, today) + (if Age(ms[|ms| - 1], today) == age then [ms[|ms| - 1]] else [])
  }

  lemma {:induction false} InsertPermutation(ms: seq<Member>, x: Member, today: Date)
    ensures multiset(Insert(ms, x, today)) == multiset(ms) + multiset{x}
  {
    if ms != [] && Age(ms[|ms| - 1], today) < Age(x, today) {
      var init, y := ms[..|ms| - 1], ms[|ms| - 1];
      InsertPermutation(init, x, today);
      assert ms == init + [y];
    }
  }

  lemma {:induction false} InsertOldestFirst(ms: seq<Member>, x: Member, today: Date)
    requires OldestFirst(ms, today)
    ensures OldestFirst(Insert(ms, x, today), today)
    ensures |Insert(ms, x, today)| == |ms| + 1
    ensures Insert(ms, x, today)[0] == x || (ms != [] && Insert(ms, x, today)[0] == ms[0])
  {
    if ms != [] && Age(ms[|ms| - 1], today) < Age(x, today) {
      var init, y := ms[..|ms| - 1], ms[|ms| - 1];
      InsertOldestFirst(init, x, today);
      var r := Insert(init, x, today);
      // every member of r is x or a member of init, all at least as old as y
      forall i | 0 <= i < |r| ensures Age(r[i], today) >= Age(y, today) {
        if init != [] {
          assert Age(r[0], today) >= Age(y, today);
          assert Age(r[0], today) >= Age(r[i], today) || i == 0;
        }
        InsertMember(init, x, today, i);
      }
    }
  }

  /** Every member of `Insert(ms, x)` is `x` or a member of `ms`. */
  lemma {:induction false} InsertMember(ms: seq<Member>, x: Member, today: Date, i: int)
    requires 0 <= i < |Insert(ms, x, today)|
    ensures Insert(ms, x, today)[i] == x || Insert(ms, x, today)[i] in ms
  {
    InsertPermutation(ms, x, today);
    assert Insert(ms, x, today)[i] in multiset(Insert(ms, x, today));
  }

  /** The sort's result holds exactly the members of its input. */
  lemma {:induction false} SortedByAgePermutation(ms: seq<Member>, today: Date)
    ensures multiset(SortedByAge(ms, today)) == multiset(ms)
  {
    if ms != [] {
      var init, y := ms[..|ms| - 1], ms[|ms| - 1];
      SortedByAgePermutation(init, today);
      InsertPermutation(SortedByAge(init, today), y, today);
      assert ms == init + [y];
    }
  }

  /** The sort's result is oldest first. */
  lemma {:induction false} SortedByAgeOldestFirst(ms: seq<Member>, today: Date)
    ensures OldestFirst(SortedByAge(ms, today), today)
  {
    if ms != [] {
      SortedByAgeOldestFirst(ms[..|ms| - 1], today);
      InsertOldestFirst(SortedByAge(ms[..|ms| - 1], today), ms[|ms| - 1], today);
    }
  }

  lemma {:induction false} InsertOfAge(ms: seq<Member>, x: Member, age: int, today: Date)
    ensures OfAge(Insert(ms, x, today), age, today)
         == OfAge(ms, age, today) + (if Age(x, today) == age then [x] else [])
  {
    var tail := if Age(x, today) == age then [x] else [];
    if ms == [] || Age(ms[|ms| - 1], today) >= Age(x, today) {
      assert (ms + [x])[..|ms|] == ms;
    } else {
      var init, y := ms[..|ms| - 1], ms[|ms| - 1];
      var r := Insert(init, x, today);
      InsertOfAge(init, x, age, today);
      assert (r + [y])[..|r|] == r;
      if Age(y, today) == age {
        assert Age(x, today) != age;
      }
    }
  }

  /** The sort is stable: members of equal age keep their relative order. */
  lemma {:induction false} SortedByAgeStable(ms: seq<Member>, age: int, today: Date)
    ensures OfAge(SortedByAge(ms, today), age, today) == OfAge(ms, age, today)
  {
    if ms != [] {
      var init, y := ms[..|ms| - 1], ms[|ms| - 1];
      SortedByAgeStable(init, age, today);
      InsertOfAge(SortedByAge(init, today), y, age, today);
    }
  }

  /** Members already oldest first are left as they are. */
  lemma {:induction false} SortedByAgeOfOldestFirst(ms: seq<Member>, today: Date)
    requires OldestFirst(ms, today)
    ensures SortedByAge(ms, today) == ms
  {
    if ms != [] {
      var init, y := ms[..|ms| - 1], ms[|ms| - 1];
      assert OldestFirst(init, today);
      SortedByAgeOfOldestFirst(init, today);
      assert ms == init + [y];
    }
  }

  /** In a table of members listed oldest first, every "Too Old" row comes before every
      "Fit To Serve" row. */
  lemma TooOldRowsFirst(ms: seq<Member>, today: Date, i: int, j: int)
    requires OldestFirst(ms, today)
    requires 0 <= i < j < |ms|
    requires Rows(ms, today)[j].status == TooOld
    ensures Rows(ms, today)[i].status == TooOld
  {
  }

  /** The body of the age table: the rows it currently holds. */
  class TableBody {
    var rows: seq<Row>

    constructor ()
      ensures rows == []
    {
      rows := [];
    }

    /** Removes every row. */
    method Clear()
      modifies this
      ensures rows == []
    {
      rows := [];
    }

    /** Adds `r` as the last row. */
    method Append(r: Row)
      modifies this
      ensures rows == old(rows) + [r]
    {
      rows := rows + [r];
    }
  }

  /** `x` is inserted behind the last member at least as old as it, ahead of the younger
      members that trail it. */
  lemma {:induction false} InsertPosition(ms: seq<Member>, x: Member, today: Date, j: int)
    requires 0 <= j <= |ms|
    requires j == 0 || Age(ms[j - 1], today) >= Age(x, today)
    requires forall k :: j <= k < |ms| ==> Age(ms[k], today) < Age(x, today)
    ensures Insert(ms, x, today) == ms[..j] + [x] + ms[j..]
  {
    if j < |ms| {
      var init, y := ms[..|ms| - 1], ms[|ms| - 1];
      InsertPosition(init, x, today, j);
      assert init[..j] == ms[..j];
      assert ms[j..] == init[j..] + [y] by {
        assert ms == init + [y];
      }
    } else {
      assert ms[..j] == ms;
    }
  }

  /** Inserts `a[i]` into the sorted prefix `a[..i]`, shifting younger members right. */
  method InsertInPlace(a: array<Member>, i: int, today: Date)
    requires 0 <= i < a.Length
    modifies a
    ensures a[..i + 1] == Insert(old(a[..i]), old(a[i]), today)
    ensures a[i + 1..] == old(a[i + 1..])
  {
    var x := a[i];
    ghost var sorted := a[..i];
    var j := i;
    while j > 0 && Age(a[j - 1], today) < Age(x, today)
      invariant 0 <= j <= i
      invariant forall k :: 0 <= k < j ==> a[k] == sorted[k]
      invariant forall k :: j < k <= i ==> a[k] == sorted[k - 1]
      invariant forall k :: i < k < a.Length ==> a[k] == old(a[k])
      invariant forall k :: j <= k < i ==> Age(sorted[k], today) < Age(x, today)
    {
      a[j] := a[j - 1];
      j := j - 1;
    }
    a[j] := x;
    InsertPosition(sorted, x, today, j);
    assert a[..i + 1] == sorted[..j] + [x] + sorted[j..];
  }

  /** Sorts `a` in place by age, oldest first, keeping members of equal age in order. */
  method SortByAge(a: array<Member>, today: Date)
    modifies a
    ensures a[..] == SortedByAge(old(a[..]), today)
  {
    ghost var orig := a[..];
    var i := 0;
    while i < a.Length
      invariant 0 <= i <= a.Length
      invariant a[..i] == SortedByAge(orig[..i], today)
      invariant a[i..] == orig[i..]
    {
      InsertInPlace(a, i, today);
      assert orig[..i + 1][..i] == orig[..i];
      i := i + 1;
    }
    assert orig[..a.Length] == orig;
  }

  /** Clears the table body, sorts the members in place by age, oldest first, and appends
      one row per member in sorted order. */
  method BuildTable(body: TableBody, members: array<Member>, today: Date)
    modifies body, members
    ensures members[..] == SortedByAge(old(members[..]), today)
    ensures body.rows == Rows(members[..], today)
  {
    body.Clear();
    SortByAge(members, today);
    var i := 0;
    while i < members.Length
      invariant 0 <= i <= members.Length
      invariant members[..] == SortedByAge(old(members[..]), today)
      invariant body.rows == Rows(members[..i], today)
    {
      var age := Age(members[i], today);
      body.Append(Row(members[i], age, StatusFor(age)));
      assert members[..i + 1][..i] == members[..i];
      i := i + 1;
    }
    assert members[..members.Length] == members[..];
  }
}
