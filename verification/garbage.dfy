/** The garbage-collection reminders of `garbage.py`. Dates are day numbers
    (proleptic Gregorian ordinals, as `date.toordinal()` gives them), so date
    order is integer order and `(a - b).days` is `a - b`. */
module Garbage {
  import opened Text

  datatype Kind = Household | Garden

  /** One entry of `future_dates`. */
  datatype Collection = Collection(kind: Kind, date: int)

  /** One row of `garbage_collection_dates`. */
  datatype Row = Row(household: int, garden: int)

  /** The built-in table: 2025-05-28/30, 06-11/13, 06-25/27, 07-09/11, 07-23/25. */
  const CollectionDates: seq<Row> := [
    Row(739399, 739401), Row(739413, 739415), Row(739427, 739429),
    Row(739441, 739443), Row(739455, 739457)]

  /** How many collections `get_next_collection` returns at most. */
  const MaxNext := 2

  // ---------------------------------------------------------------- selection

  /** Whether `c` is one of the table's collections. */
  predicate Listed(table: seq<Row>, c: Collection) {
    exists i :: 0 <= i < |table| &&
      (c == Collection(Household, table[i].household) || c == Collection(Garden, table[i].garden))
  }

  /** The filter loop: household then garden, row by row, for dates not before today. */
  function Qualifying(table: seq<Row>, today: int): (r: seq<Collection>)
  {
    if |table| == 0 then []
    else
      var row := table[0];
      (if row.household >= today then [Collection(Household, row.household)] else [])
      + (if row.garden >= today then [Collection(Garden, row.garden)] else [])
      + Qualifying(table[1..], today)
  }

  /** Exactly the listed collections not before today qualify. */
  lemma {:induction false} QualifyingMembers(table: seq<Row>, today: int, c: Collection)
    ensures c in Qualifying(table, today) <==> c.date >= today && Listed(table, c)
  {
    if |table| > 0 {
      QualifyingMembers(table[1..], today, c);
      if Listed(table, c) {
        var i :| 0 <= i < |table| &&
          (c == Collection(Household, table[i].household) || c == Collection(Garden, table[i].garden));
        if i > 0 {
          assert table[1..][i - 1] == table[i];
        }
      }
      if Listed(table[1..], c) {
        var i :| 0 <= i < |table[1..]| &&
          (c == Collection(Household, table[1..][i].household) || c == Collection(Garden, table[1..][i].garden));
        assert table[i + 1] == table[1..][i];
      }
    }
  }

  predicate SortedByDate(xs: seq<Collection>) {
    forall i, j :: 0 <= i < j < |xs| ==> xs[i].date <= xs[j].date
  }

  /** Insert `x` before the first element that is not earlier than it. */
  function Insert(x: Collection, xs: seq<Collection>): seq<Collection> {
    if |xs| == 0 then [x]
    else if x.date <= xs[0].date then [x] + xs
    else [xs[0]] + Insert(x, xs[1..])
  }

  /** Inserting adds exactly `x`. */
  lemma {:induction false} InsertPermutes(x: Collection, xs: seq<Collection>)
    ensures multiset(Insert(x, xs)) == multiset(xs) + multiset{x}
  {
    if |xs| > 0 && x.date > xs[0].date {
      InsertPermutes(x, xs[1..]);
      assert xs == [xs[0]] + xs[1..];
    }
  }

  /** Inserting keeps a sorted list sorted. */
  lemma {:induction false} InsertSorted(x: Collection, xs: seq<Collection>)
    requires SortedByDate(xs)
    ensures SortedByDate(Insert(x, xs))
  {
    if |xs| > 0 && x.date > xs[0].date {
      var rest := Insert(x, xs[1..]);
      InsertSorted(x, xs[1..]);
      InsertPermutes(x, xs[1..]);
      forall k | 0 <= k < |rest|
        ensures xs[0].date <= rest[k].date
      {
        assert rest[k] in multiset(rest);
        assert rest[k] == x || rest[k] in multiset(xs[1..]);
      }
      assert Insert(x, xs) == [xs[0]] + rest;
    }
  }

  /** `list.sort(key=date)`, a stable sort. */
  function SortByDate(xs: seq<Collection>): seq<Collection> {
    if |xs| == 0 then [] else Insert(xs[0], SortByDate(xs[1..]))
  }

  /** The sort yields a sorted permutation of its input. */
  lemma {:induction false} SortByDateSorts(xs: seq<Collection>)
    ensures SortedByDate(SortByDate(xs))
    ensures multiset(SortByDate(xs)) == multiset(xs)
  {
    if |xs| > 0 {
      SortByDateSorts(xs[1..]);
      assert xs == [xs[0]] + xs[1..];
      InsertPermutes(xs[0], SortByDate(xs[1..]));
      InsertSorted(xs[0], SortByDate(xs[1..]));
    }
  }

  /** The elements of `xs` that fall on day `d`, in order. */
  function OnDay(xs: seq<Collection>, d: int): seq<Collection> {
    if |xs| == 0 then []
    else (if xs[0].date == d then [xs[0]] else []) + OnDay(xs[1..], d)
  }

  lemma OnDayCons(x: Collection, xs: seq<Collection>, d: int)
    ensures OnDay([x] + xs, d) == (if x.date == d then [x] else []) + OnDay(xs, d)
  {
    assert ([x] + xs)[1..] == xs;
  }

  lemma {:induction false} InsertKeepsOrder(x: Collection, xs: seq<Collection>, d: int)
    ensures OnDay(Insert(x, xs), d) == OnDay([x] + xs, d)
  {
    if |xs| > 0 && x.date > xs[0].date {
      var h, t := xs[0], xs[1..];
      var rest := Insert(x, t);
      var hd: seq<Collection> := if h.date == d then [h] else [];
      var xd: seq<Collection> := if x.date == d then [x] else [];
      assert xs == [h] + t;
      InsertKeepsOrder(x, t, d);
      OnDayCons(h, rest, d);
      OnDayCons(x, t, d);
      OnDayCons(x, xs, d);
      OnDayCons(h, t, d);
      assert hd == [] || xd == [];
      calc {
        OnDay(Insert(x, xs), d);
        OnDay([h] + rest, d);
        hd + OnDay(rest, d);
        hd + (xd + OnDay(t, d));
        { assert hd + (xd + OnDay(t, d)) == xd + (hd + OnDay(t, d)); }
        xd + (hd + OnDay(t, d));
        xd + OnDay(xs, d);
        OnDay([x] + xs, d);
      }
    }
  }

  /** The sort is stable: collections on the same day keep their table order. */
  lemma {:induction false} SortIsStable(xs: seq<Collection>, d: int)
    ensures OnDay(SortByDate(xs), d) == OnDay(xs, d)
  {
    if |xs| > 0 {
      SortIsStable(xs[1..], d);
      InsertKeepsOrder(xs[0], SortByDate(xs[1..]), d);
      OnDayCons(xs[0], SortByDate(xs[1..]), d);
      OnDayCons(xs[0], xs[1..], d);
      assert xs == [xs[0]] + xs[1..];
    }
  }

  /** The first `n` of a sorted list are sorted and no later than any element left out. */
  lemma TakeOfSorted(s: seq<Collection>, n: nat)
    requires SortedByDate(s) && n <= |s|
    ensures SortedByDate(s[..n])
    ensures multiset(s[..n]) <= multiset(s)
    ensures forall c :: c in multiset(s) - multiset(s[..n]) ==> forall k :: 0 <= k < n ==> s[..n][k].date <= c.date
  {
    var p, rest := s[..n], s[n..];
    assert s == p + rest;
    assert multiset(s) == multiset(p) + multiset(rest);
    assert forall k :: 0 <= k < n ==> p[k] == s[k];
    forall c | c in multiset(s) - multiset(p)
      ensures forall k :: 0 <= k < n ==> p[k].date <= c.date
    {
      assert c in rest;
      var j :| 0 <= j < |rest| && rest[j] == c;
      assert s[n + j] == c;
    }
  }

  /** `get_next_collection(today)` over a table: the two earliest collections not
      before today. */
  function NextCollections(table: seq<Row>, today: int): (r: seq<Collection>)
    ensures |r| <= MaxNext
  {
    var s := SortByDate(Qualifying(table, today));
    s[..if |s| < MaxNext then |s| else MaxNext]
  }

  /** The result is a sorted selection of the qualifying collections, as many as there
      are up to two, and every qualifying collection left out is no earlier than any
      returned one. */
  lemma NextCollectionsEarliest(table: seq<Row>, today: int)
    ensures var q, r := Qualifying(table, today), NextCollections(table, today);
      && |r| == (if |q| < MaxNext then |q| else MaxNext)
      && SortedByDate(r)
      && multiset(r) <= multiset(q)
      && forall c :: c in multiset(q) - multiset(r) ==> forall k :: 0 <= k < |r| ==> r[k].date <= c.date
  {
    var q := Qualifying(table, today);
    var s := SortByDate(q);
    SortByDateSorts(q);
    TakeOfSorted(s, if |s| < MaxNext then |s| else MaxNext);
  }

  /** Every returned collection is a listed one not before today. */
  lemma NextCollectionsQualify(table: seq<Row>, today: int)
    ensures forall c :: c in NextCollections(table, today) ==> c.date >= today && Listed(table, c)
  {
    var r := NextCollections(table, today);
    NextCollectionsEarliest(table, today);
    forall c | c in r
      ensures c.date >= today && Listed(table, c)
    {
      assert c in multiset(r);
      QualifyingMembers(table, today, c);
    }
  }

  /** `get_next_collection` over the built-in table. */
  function GetNextCollection(today: int): (r: seq<Collection>)
    ensures r == NextCollections(CollectionDates, today)
    ensures var q := Qualifying(CollectionDates, today);
      && |r| == (if |q| < MaxNext then |q| else MaxNext)
      && SortedByDate(r)
      && multiset(r) <= multiset(q)
      && forall c :: c in multiset(q) - multiset(r) ==> forall k :: 0 <= k < |r| ==> r[k].date <= c.date
    ensures forall c :: c in r ==> c.date >= today && Listed(CollectionDates, c)
  {
    NextCollectionsEarliest(CollectionDates, today);
    NextCollectionsQualify(CollectionDates, today);
    NextCollections(CollectionDates, today)
  }

  lemma {:induction false} SortOfSorted(xs: seq<Collection>)
    requires SortedByDate(xs)
    ensures SortByDate(xs) == xs
  {
    if |xs| > 0 {
      SortOfSorted(xs[1..]);
      assert xs == [xs[0]] + xs[1..];
    }
  }

  /** Sortedness follows from the order of neighbours. */
  lemma {:induction false} NeighboursSorted(xs: seq<Collection>)
    requires forall k :: 0 < k < |xs| ==> xs[k - 1].date <= xs[k].date
    ensures SortedByDate(xs)
  {
    if |xs| > 1 {
      NeighboursSorted(xs[1..]);
      assert forall k :: 0 < k < |xs[1..]| ==> xs[1..][k - 1].date <= xs[1..][k].date;
      forall i, j | 0 <= i < j < |xs|
        ensures xs[i].date <= xs[j].date
      {
        if i == 0 && j > 1 {
          assert xs[1..][0] == xs[1] && xs[1..][j - 1] == xs[j];
        } else if i > 0 {
          assert xs[1..][i - 1] == xs[i] && xs[1..][j - 1] == xs[j];
        }
      }
    }
  }

  /** The collections from 2025-05-29 on, in table order. */
  const FromDefaultDay: seq<Collection> := [
    Collection(Garden, 739401), Collection(Household, 739413), Collection(Garden, 739415),
    Collection(Household, 739427), Collection(Garden, 739429), Collection(Household, 739441),
    Collection(Garden, 739443), Collection(Household, 739455), Collection(Garden, 739457)]

  lemma QualifyingOnDefaultDay(today: int)
    requires today == 739400
    ensures Qualifying(CollectionDates, today) == FromDefaultDay
  {
    var t, q := CollectionDates, FromDefaultDay;
    assert Qualifying(t[5..], today) == [];
    assert Qualifying(t[4..], today) == q[7..];
    assert Qualifying(t[3..], today) == q[5..];
    assert Qualifying(t[2..], today) == q[3..];
    assert Qualifying(t[1..], today) == q[1..];
  }

  lemma DefaultDaySorted()
    ensures SortByDate(FromDefaultDay) == FromDefaultDay
  {
    NeighboursSorted(FromDefaultDay);
    SortOfSorted(FromDefaultDay);
  }

  lemma TakeFirstTwo(table: seq<Row>, today: int, s: seq<Collection>)
    requires SortByDate(Qualifying(table, today)) == s && |s| >= MaxNext
    ensures NextCollections(table, today) == s[..MaxNext]
  {
  }

  /** On 2025-05-29 (day 739400) the next collections are garden on 05-30 and
      household on 06-11: the household collection of 05-28 is already past. */
  lemma NextCollectionOnDefaultDay(today: int)
    requires today == 739400
    ensures var r := GetNextCollection(today);
      |r| == 2 && r[0] == Collection(Garden, 739401) && r[1] == Collection(Household, 739413)
  {
    QualifyingOnDefaultDay(today);
    DefaultDaySorted();
    TakeFirstTwo(CollectionDates, today, FromDefaultDay);
  }

  // ---------------------------------------------------------------- wording

  /** `get_days_until`, given `days = target - today`. */
  function DaysUntil(days: int): (r: string)
    ensures days == 0 <==> r == "idag"
    ensures days == 1 <==> r == "imorgon"
    ensures days != 0 && days != 1 ==> r == "om " + IntToString(days) + " dagar"
  {
    if days == 0 then "idag"
    else if days == 1 then "imorgon"
    else "om " + IntToString(days) + " dagar"
  }

  /** Different day counts are worded differently, negative ones included. */
  lemma DaysUntilInjective(a: int, b: int)
    requires DaysUntil(a) == DaysUntil(b)
    ensures a == b
  {
    if a != 0 && a != 1 && b != 0 && b != 1 {
      var sa := IntToString(a);
      var sb := IntToString(b);
      assert DaysUntil(a) == "om " + sa + " dagar";
      assert DaysUntil(b) == "om " + sb + " dagar";
      assert |sa| == |sb|;
      assert forall i :: 0 <= i < |sa| ==> sa[i] == DaysUntil(a)[3 + i];
      assert forall i :: 0 <= i < |sb| ==> sb[i] == DaysUntil(b)[3 + i];
      assert sa == sb;
      IntToStringInjective(a, b);
    }
  }

  function KindLabel(k: Kind): string {
    if k == Household then "Hushållssopor" else "Trädgårdsavfall"
  }

  /** `get_reminder_message`; `dayMonth` stands for `strftime("%d/%m")`.
      A reminder starts with its kind's label and ends with the day-count wording in
      parentheses. */
  function ReminderMessage(c: Collection, today: int, dayMonth: int -> string): (r: string)
    ensures |r| > |KindLabel(c.kind)| && r[..|KindLabel(c.kind)|] == KindLabel(c.kind)
    ensures var tail := " (" + DaysUntil(c.date - today) + ")"; |tail| <= |r| && r[|r| - |tail|..] == tail
  {
    KindLabel(c.kind) + ": " + dayMonth(c.date) + " (" + DaysUntil(c.date - today) + ")"
  }

  /** A reminder names its kind: the two kinds' messages never coincide. */
  lemma ReminderNamesKind(c1: Collection, c2: Collection, today: int, dayMonth: int -> string)
    requires ReminderMessage(c1, today, dayMonth) == ReminderMessage(c2, today, dayMonth)
    ensures c1.kind == c2.kind
  {
    assert ReminderMessage(c1, today, dayMonth)[0] == KindLabel(c1.kind)[0];
    assert ReminderMessage(c2, today, dayMonth)[0] == KindLabel(c2.kind)[0];
  }

  // ---------------------------------------------------------------- layout

  /** Text size of the body font. */
  const TextSize := 16

  datatype TextAt = TextAt(x: int, y: int, text: string)

  /** The noun of the put-out instruction, before lower-casing. */
  function InstructionNoun(k: Kind): string {
    if k == Household then "Hushållssoporna" else "Trädgårdsavfallet"
  }

  /** Height of one reminder line and of the title. */
  const LineHeight := TextSize + 8
  const TitleHeight := TextSize + 12

  /** The reminder lines, `LineHeight` apart from `y`. */
  function Reminders(cs: seq<Collection>, x: int, y: int, today: int, dayMonth: int -> string): seq<TextAt> {
    seq(|cs|, i requires 0 <= i < |cs| => TextAt(x, y + LineHeight * i, ReminderMessage(cs[i], today, dayMonth)))
  }

  /** The put-out instruction for the first collection's kind. */
  function InstructionText(k: Kind): string {
    "Dags att ställa ut " + Lower(InstructionNoun(k)) + "!"
  }

  /** Whether the put-out instruction is due: the first collection is today or tomorrow. */
  predicate InstructionDue(next: seq<Collection>, today: int) {
    |next| > 0 && 0 <= next[0].date - today <= 1
  }

  /** Lines further down the list are drawn lower. */
  lemma LinesDescend(n: int)
    ensures forall i :: 0 <= i < n ==> LineHeight * i < LineHeight * n
  {
    assert LineHeight == 24;
  }

  /** The instruction line below `n` reminders starting at `startY`, if one is drawn:
      the source tests the wording of the first day count. */
  function Instruction(next: seq<Collection>, x: int, startY: int, today: int): (r: seq<TextAt>)
    ensures |r| == if InstructionDue(next, today) then 1 else 0
    ensures InstructionDue(next, today) ==>
      r[0] == TextAt(x, startY + LineHeight * |next|, InstructionText(next[0].kind))
  {
    if |next| > 0 && DaysUntil(next[0].date - today) in ["idag", "imorgon"] then
      [TextAt(x, startY + LineHeight * |next|, InstructionText(next[0].kind))]
    else []
  }

  /** The text drawn by `draw_garbage_collection` at `(x, y)`, title excluded. */
  function DrawGarbageCollection(table: seq<Row>, x: int, y: int, today: int, dayMonth: int -> string): (r: seq<TextAt>)
    ensures var next := NextCollections(table, today);
      && |r| == |next| + (if InstructionDue(next, today) then 1 else 0)
      && (forall i :: 0 <= i < |next| ==>
            r[i] == TextAt(x, y + TitleHeight + LineHeight * i, ReminderMessage(next[i], today, dayMonth)))
      && (InstructionDue(next, today) ==>
            && r[|next|] == TextAt(x, y + TitleHeight + LineHeight * |next|, InstructionText(next[0].kind))
            && forall i :: 0 <= i < |next| ==> r[i].y < r[|next|].y)
  {
    var next := NextCollections(table, today);
    var startY := y + TitleHeight;
    LinesDescend(|next|);
    Reminders(next, x, startY, today, dayMonth) + Instruction(next, x, startY, today)
  }

  /** Lower-casing the nouns leaves the non-ASCII letters alone. */
  lemma InstructionTexts()
    ensures Lower(InstructionNoun(Household)) == "hushållssoporna"
    ensures Lower(InstructionNoun(Garden)) == "trädgårdsavfallet"
  {
  }
}
