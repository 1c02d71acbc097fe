/**
 * Eighth-period blocks: the block table, its (date, letter) order, the
 * next/previous/surrounding queries, the "first upcoming block" lookup and
 * the letter normalisation that saving a block performs.
 *
 * A date is a day number; an instant is a number of seconds since the
 * midnight that starts day 0 (local time, as the source's naive datetimes).
 */
module Blocks {
  import opened Wrappers

  type BlockId = int

  /** One row of the block table. */
  datatype Block = Block(id: BlockId, date: int, letter: string, locked: bool)

  /** Errors the storage layer raises on a block write. */
  datatype DbError = IntegrityError

  const SecondsPerHour: int := 3600
  const SecondsPerDay: int := 86400
  /** Before this hour the current day still counts as upcoming. */
  const EveningHour: int := 17

  // ---------------------------------------------------------------------
  // Letter order: lexicographic by code point, as the database compares text.

  predicate LetterLess(a: string, b: string)
    decreases |a|
  {
    |b| > 0 && (|a| == 0 || a[0] < b[0] || (a[0] == b[0] && LetterLess(a[1..], b[1..])))
  }

  lemma {:induction false} LetterLessIrreflexive(a: string)
    ensures !LetterLess(a, a)
    decreases |a|
  {
    if |a| > 0 {
      LetterLessIrreflexive(a[1..]);
    }
  }

  lemma {:induction false} LetterLessTransitive(a: string, b: string, c: string)
    requires LetterLess(a, b) && LetterLess(b, c)
    ensures LetterLess(a, c)
    decreases |a|
  {
    if |a| > 0 && a[0] == b[0] && b[0] == c[0] {
      LetterLessTransitive(a[1..], b[1..], c[1..]);
    }
  }

  lemma {:induction false} LetterLessTotal(a: string, b: string)
    requires a != b
    ensures LetterLess(a, b) || LetterLess(b, a)
    decreases |a|
  {
    if |a| > 0 && |b| > 0 && a[0] == b[0] {
      assert a == [a[0]] + a[1..] && b == [b[0]] + b[1..];
      LetterLessTotal(a[1..], b[1..]);
    }
  }

  // ---------------------------------------------------------------------
  // Block order: by date, then by letter (order_by("date", "block_letter")).

  predicate SameKey(a: Block, b: Block) {
    a.date == b.date && a.letter == b.letter
  }

  predicate Precedes(a: Block, b: Block) {
    a.date < b.date || (a.date == b.date && LetterLess(a.letter, b.letter))
  }

  lemma PrecedesIrreflexive(a: Block, b: Block)
    requires SameKey(a, b)
    ensures !Precedes(a, b)
  {
    LetterLessIrreflexive(a.letter);
  }

  lemma PrecedesTransitive(a: Block, b: Block, c: Block)
    requires Precedes(a, b) && Precedes(b, c)
    ensures Precedes(a, c)
  {
    if a.date == b.date == c.date {
      LetterLessTransitive(a.letter, b.letter, c.letter);
    }
  }

  lemma PrecedesAsymmetric(a: Block, b: Block)
    requires Precedes(a, b)
    ensures !Precedes(b, a)
  {
    if Precedes(b, a) {
      PrecedesTransitive(a, b, a);
      PrecedesIrreflexive(a, a);
    }
  }

  lemma PrecedesTotal(a: Block, b: Block)
    requires !SameKey(a, b)
    ensures Precedes(a, b) || Precedes(b, a)
  {
    if a.date == b.date {
      LetterLessTotal(a.letter, b.letter);
    }
  }

  /** The non-strict order "a is not after b" is transitive. */
  lemma NotAfterTransitive(a: Block, b: Block, c: Block)
    requires !Precedes(b, a) && !Precedes(c, b)
    ensures !Precedes(c, a)
  {
    if !SameKey(a, b) {
      PrecedesTotal(a, b);
    }
    if !SameKey(b, c) {
      PrecedesTotal(b, c);
    }
    if Precedes(a, b) && Precedes(b, c) {
      PrecedesTransitive(a, b, c);
    }
    if SameKey(a, c) {
      PrecedesIrreflexive(c, a);
    } else if Precedes(a, c) {
      PrecedesAsymmetric(a, c);
    }
  }

  // ---------------------------------------------------------------------
  // Table-level properties.

  predicate Sorted(s: seq<Block>) {
    forall i, j :: 0 <= i < j < |s| ==> !Precedes(s[j], s[i])
  }

  predicate StrictlySorted(s: seq<Block>) {
    forall i, j :: 0 <= i < j < |s| ==> Precedes(s[i], s[j])
  }

  /** unique_together = ("date", "block_letter") */
  predicate UniqueKeys(s: seq<Block>) {
    forall i, j :: 0 <= i < j < |s| ==> !SameKey(s[i], s[j])
  }

  predicate UniqueIds(s: seq<Block>) {
    forall i, j :: 0 <= i < j < |s| ==> s[i].id != s[j].id
  }

  lemma SortedUniqueIsStrict(s: seq<Block>)
    requires Sorted(s) && UniqueKeys(s)
    ensures StrictlySorted(s)
  {
    forall i, j | 0 <= i < j < |s| ensures Precedes(s[i], s[j]) {
      PrecedesTotal(s[i], s[j]);
    }
  }

  /** The first row of a table differs from every later row in id and key. */
  lemma HeadApart(rows: seq<Block>)
    requires |rows| > 0
    ensures UniqueIds(rows) ==> forall x :: x in rows[1..] ==> x.id != rows[0].id
    ensures UniqueKeys(rows) ==> forall x :: x in rows[1..] ==> !SameKey(x, rows[0])
  {
    forall x | x in rows[1..] ensures exists k :: 1 <= k < |rows| && rows[k] == x {
      var k :| 0 <= k < |rows[1..]| && rows[1..][k] == x;
      assert rows[k + 1] == x;
    }
  }

  lemma ConsUniqueKeys(x: Block, t: seq<Block>)
    requires UniqueKeys(t) && forall y :: y in t ==> !SameKey(x, y)
    ensures UniqueKeys([x] + t)
  {
    var r := [x] + t;
    forall i, j | 0 <= i < j < |r| ensures !SameKey(r[i], r[j]) {
      if i == 0 {
        assert r[j] == t[j - 1] && t[j - 1] in t;
      }
    }
  }

  lemma ConsUniqueIds(x: Block, t: seq<Block>)
    requires UniqueIds(t) && forall y :: y in t ==> x.id != y.id
    ensures UniqueIds([x] + t)
  {
    var r := [x] + t;
    forall i, j | 0 <= i < j < |r| ensures r[i].id != r[j].id {
      if i == 0 {
        assert r[j] == t[j - 1] && t[j - 1] in t;
      }
    }
  }

  // ---------------------------------------------------------------------
  // Sorting by (date, letter).

  lemma InsertFront(x: Block, s: seq<Block>)
    requires Sorted(s) && (s == [] || !Precedes(s[0], x))
    ensures Sorted([x] + s)
  {
    var r := [x] + s;
    forall i, j | 0 <= i < j < |r| ensures !Precedes(r[j], r[i]) {
      if i == 0 && j > 1 {
        NotAfterTransitive(x, s[0], s[j - 1]);
      }
    }
  }

  lemma InsertBehind(x: Block, s: seq<Block>, t: seq<Block>)
    requires Sorted(s) && |s| > 0 && Precedes(s[0], x)
    requires Sorted(t) && multiset(t) == multiset(s[1..]) + multiset{x}
    ensures Sorted([s[0]] + t)
  {
    var r := [s[0]] + t;
    forall i, j | 0 <= i < j < |r| ensures !Precedes(r[j], r[i]) {
      if i == 0 {
        var y := t[j - 1];
        assert y in multiset(t);
        if y == x {
          PrecedesAsymmetric(s[0], x);
        } else {
          assert y in multiset(s[1..]);
          var k :| 0 <= k < |s[1..]| && s[1..][k] == y;
          assert s[k + 1] == y;
        }
      }
    }
  }

  lemma InsertBehindUnique(x: Block, s: seq<Block>, t: seq<Block>)
    requires |s| > 0 && multiset(t) == multiset(s[1..]) + multiset{x}
    requires UniqueKeys(s[1..]) && (forall y :: y in s[1..] ==> !SameKey(x, y)) ==> UniqueKeys(t)
    ensures UniqueKeys(s) && (forall y :: y in s ==> !SameKey(x, y)) ==> UniqueKeys([s[0]] + t)
  {
    if UniqueKeys(s) && (forall y :: y in s ==> !SameKey(x, y)) {
      HeadApart(s);
      assert s[0] in s;
      forall y | y in t ensures !SameKey(s[0], y) {
        assert y in multiset(t);
        if y != x {
          assert y in multiset(s[1..]);
        }
      }
      ConsUniqueKeys(s[0], t);
    }
  }

  /** Inserts x before the first element that does not precede it. */
  function Insert(x: Block, s: seq<Block>): (r: seq<Block>)
    requires Sorted(s)
    ensures Sorted(r) && multiset(r) == multiset(s) + multiset{x}
    ensures UniqueKeys(s) && (forall y :: y in s ==> !SameKey(x, y)) ==> UniqueKeys(r)
  {
    if s == [] || !Precedes(s[0], x) then
      InsertFront(x, s);
      [x] + s
    else
      var t := Insert(x, s[1..]);
      InsertBehind(x, s, t);
      assert s == [s[0]] + s[1..];
      InsertBehindUnique(x, s, t);
      [s[0]] + t
  }

  lemma SortStepUnique(s: seq<Block>, t: seq<Block>)
    requires |s| > 0 && multiset(t) == multiset(s[1..])
    ensures UniqueKeys(s) ==> UniqueKeys(s[1..]) && forall y :: y in t ==> !SameKey(s[0], y)
  {
    if UniqueKeys(s) {
      HeadApart(s);
      forall y | y in t ensures !SameKey(s[0], y) {
        assert y in multiset(t);
      }
    }
  }

  /** The rows in ascending (date, letter) order. */
  function Sort(s: seq<Block>): (r: seq<Block>)
    ensures Sorted(r) && multiset(r) == multiset(s)
    ensures UniqueKeys(s) ==> UniqueKeys(r)
  {
    if s == [] then []
    else
      var t := Sort(s[1..]);
      assert s == [s[0]] + s[1..];
      SortStepUnique(s, t);
      Insert(s[0], t)
  }

  function Reverse(s: seq<Block>): (r: seq<Block>)
    ensures |r| == |s| && forall i :: 0 <= i < |s| ==> r[i] == s[|s| - 1 - i]
  {
    seq(|s|, i requires 0 <= i < |s| => s[|s| - 1 - i])
  }

  lemma ReverseReverse(s: seq<Block>)
    ensures Reverse(Reverse(s)) == s
  {
    var r := Reverse(Reverse(s));
    assert forall i :: 0 <= i < |s| ==> r[i] == s[i];
  }

  /**
   * Taking at most n from the reversed sequence and reversing back keeps a
   * suffix of at most n elements: n of them, or all when there are fewer.
   */
  lemma ReverseTakeIsSuffix(s: seq<Block>, n: nat)
    ensures var r := Reverse(Take(Reverse(s), n));
      |r| <= n && r == s[|s| - |r|..] && (|r| == n || r == s)
  {
    var d := Reverse(s);
    var r := Reverse(Take(d, n));
    if n <= |s| {
      assert Take(d, n) == d[..n];
      assert forall i :: 0 <= i < n ==> r[i] == d[n - 1 - i] == s[|s| - n + i];
    } else {
      assert Take(d, n) == d;
      ReverseReverse(s);
    }
  }

  /** The first n elements (a slice [:n] with n >= 0). */
  function Take(s: seq<Block>, n: nat): seq<Block> {
    if n <= |s| then s[..n] else s
  }

  // ---------------------------------------------------------------------
  // Filters over the table.

  /** Rows strictly after b in (date, letter) order. */
  function Later(rows: seq<Block>, b: Block): (r: seq<Block>)
    ensures forall x :: x in r <==> x in rows && Precedes(b, x)
    ensures UniqueKeys(rows) ==> UniqueKeys(r)
  {
    if rows == [] then []
    else
      var t := Later(rows[1..], b);
      assert rows == [rows[0]] + rows[1..];
      HeadApart(rows);
      if Precedes(b, rows[0]) then
        (if UniqueKeys(rows) then ConsUniqueKeys(rows[0], t); [rows[0]] + t else [rows[0]] + t)
      else t
  }

  /** Rows strictly before b in (date, letter) order. */
  function Earlier(rows: seq<Block>, b: Block): (r: seq<Block>)
    ensures forall x :: x in r <==> x in rows && Precedes(x, b)
    ensures UniqueKeys(rows) ==> UniqueKeys(r)
  {
    if rows == [] then []
    else
      var t := Earlier(rows[1..], b);
      assert rows == [rows[0]] + rows[1..];
      HeadApart(rows);
      if Precedes(rows[0], b) then
        (if UniqueKeys(rows) then ConsUniqueKeys(rows[0], t); [rows[0]] + t else [rows[0]] + t)
      else t
  }

  /** Rows with b's (date, letter) pair. */
  function Alike(rows: seq<Block>, b: Block): (r: seq<Block>)
    ensures forall x :: x in r <==> x in rows && SameKey(x, b)
    ensures (forall x :: x in rows ==> !SameKey(x, b)) ==> r == []
  {
    if rows == [] then []
    else
      var t := Alike(rows[1..], b);
      assert rows == [rows[0]] + rows[1..];
      if SameKey(rows[0], b) then [rows[0]] + t else t
  }

  /** Every row is before b, alike b or after b, and only one of these. */
  lemma {:induction false} PartitionAround(rows: seq<Block>, b: Block)
    ensures multiset(Earlier(rows, b)) + multiset(Alike(rows, b)) + multiset(Later(rows, b)) == multiset(rows)
  {
    if rows != [] {
      PartitionAround(rows[1..], b);
      assert rows == [rows[0]] + rows[1..];
      var x := rows[0];
      if SameKey(x, b) {
        PrecedesIrreflexive(x, b);
        PrecedesIrreflexive(b, x);
      } else {
        PrecedesTotal(x, b);
        if Precedes(x, b) {
          PrecedesAsymmetric(x, b);
        }
      }
    }
  }

  /** In a table with unique (date, letter) pairs, only b itself is alike b. */
  lemma {:induction false} AlikeIsSelf(rows: seq<Block>, b: Block)
    requires UniqueKeys(rows) && b in rows
    ensures Alike(rows, b) == [b]
  {
    assert rows == [rows[0]] + rows[1..];
    if rows[0] == b {
      assert forall y :: y in rows[1..] ==> !SameKey(y, b) by {
        forall y | y in rows[1..] ensures !SameKey(y, b) {
          var k :| 0 <= k < |rows[1..]| && rows[1..][k] == y;
          assert rows[k + 1] == y;
        }
      }
    } else {
      var k :| 0 <= k < |rows| && rows[k] == b;
      assert !SameKey(rows[0], b);
      AlikeIsSelf(rows[1..], b);
    }
  }

  // ---------------------------------------------------------------------
  // next_blocks, previous_blocks, get_surrounding_blocks.

  /**
   * EighthBlock.next_blocks: the blocks after b, ascending. quantity -1
   * means all of them; otherwise the query is sliced [:quantity + 1], and a
   * negative slice bound is refused by the query layer (None).
   */
  function NextBlocks(rows: seq<Block>, b: Block, quantity: int): (r: Option<seq<Block>>)
    ensures r.None? <==> quantity < -1
  {
    var blocks := Sort(Later(rows, b));
    if quantity == -1 then Some(blocks)
    else if quantity < -1 then None
    else Some(Take(blocks, quantity + 1))
  }

  /**
   * EighthBlock.previous_blocks: the blocks before b, queried in descending
   * order, sliced like NextBlocks, then reversed back to ascending order.
   */
  function PreviousBlocks(rows: seq<Block>, b: Block, quantity: int): (r: Option<seq<Block>>)
    ensures r.None? <==> quantity < -1
  {
    var blocks := Reverse(Sort(Earlier(rows, b)));
    if quantity == -1 then Some(Reverse(blocks))
    else if quantity < -1 then None
    else Some(Reverse(Take(blocks, quantity + 1)))
  }

  /** EighthBlock.get_surrounding_blocks: previous ++ [b] ++ next, unlimited. */
  function Surrounding(rows: seq<Block>, b: Block): seq<Block> {
    PreviousBlocks(rows, b, -1).value + [b] + NextBlocks(rows, b, -1).value
  }

  lemma NextBlocksAreLaterAscending(rows: seq<Block>, b: Block)
    requires UniqueKeys(rows)
    ensures var r := NextBlocks(rows, b, -1).value;
      StrictlySorted(r) && forall x :: x in r <==> x in rows && Precedes(b, x)
  {
    var r := Sort(Later(rows, b));
    SortedUniqueIsStrict(r);
    forall x ensures x in r <==> x in Later(rows, b) {
      assert x in r <==> x in multiset(r);
    }
  }

  lemma PreviousBlocksAreEarlierAscending(rows: seq<Block>, b: Block)
    requires UniqueKeys(rows)
    ensures var r := PreviousBlocks(rows, b, -1).value;
      StrictlySorted(r) && forall x :: x in r <==> x in rows && Precedes(x, b)
  {
    var r := Sort(Earlier(rows, b));
    ReverseReverse(r);
    SortedUniqueIsStrict(r);
    forall x ensures x in r <==> x in Earlier(rows, b) {
      assert x in r <==> x in multiset(r);
    }
  }

  /** With a limit q, next_blocks keeps the q + 1 nearest later blocks. */
  lemma NextBlocksLimited(rows: seq<Block>, b: Block, q: int)
    requires q >= 0
    ensures var r := NextBlocks(rows, b, q).value;
      var all := NextBlocks(rows, b, -1).value;
      |r| <= q + 1 && r == all[..|r|] && (|r| == q + 1 || r == all)
  {
  }

  /** With a limit q, previous_blocks keeps the q + 1 nearest earlier blocks. */
  lemma PreviousBlocksLimited(rows: seq<Block>, b: Block, q: int)
    requires q >= 0
    ensures var r := PreviousBlocks(rows, b, q).value;
      var all := PreviousBlocks(rows, b, -1).value;
      |r| <= q + 1 && r == all[|all| - |r|..] && (|r| == q + 1 || r == all)
  {
    var asc := Sort(Earlier(rows, b));
    var all := PreviousBlocks(rows, b, -1).value;
    var r := PreviousBlocks(rows, b, q).value;
    assert all == Reverse(Reverse(asc));
    assert r == Reverse(Take(Reverse(asc), q + 1));
    ReverseReverse(asc);
    ReverseTakeIsSuffix(asc, q + 1);
  }

  lemma StrictlySortedAround(a: seq<Block>, b: Block, c: seq<Block>)
    requires StrictlySorted(a) && StrictlySorted(c)
    requires forall x :: x in a ==> Precedes(x, b)
    requires forall y :: y in c ==> Precedes(b, y)
    ensures StrictlySorted(a + [b] + c)
  {
    var r := a + [b] + c;
    forall i, j | 0 <= i < j < |r| ensures Precedes(r[i], r[j]) {
      if i < |a| && j > |a| {
        assert r[i] in a && r[j] in c;
        PrecedesTransitive(r[i], b, r[j]);
      } else if i < |a| && j == |a| {
        assert r[i] in a;
      } else if i == |a| {
        assert r[j] in c;
      }
    }
  }

  /**
   * The surrounding blocks of a block of the table are the whole table, in
   * strictly ascending order, with b exactly once.
   */
  lemma SurroundingIsWholeTable(rows: seq<Block>, b: Block)
    requires UniqueKeys(rows) && b in rows
    ensures var r := Surrounding(rows, b);
      StrictlySorted(r) && multiset(r) == multiset(rows) && multiset(r)[b] == 1
  {
    var prev := PreviousBlocks(rows, b, -1).value;
    var next := NextBlocks(rows, b, -1).value;
    PreviousBlocksAreEarlierAscending(rows, b);
    NextBlocksAreLaterAscending(rows, b);
    StrictlySortedAround(prev, b, next);
    ReverseReverse(Sort(Earlier(rows, b)));
    PartitionAround(rows, b);
    AlikeIsSelf(rows, b);
    assert multiset(prev) == multiset(Earlier(rows, b));
    assert multiset(next) == multiset(Later(rows, b));
    assert multiset(prev + [b] + next) == multiset(prev) + multiset([b]) + multiset(next);
    PrecedesIrreflexive(b, b);
    assert b !in prev && b !in next;
  }

  // ---------------------------------------------------------------------
  // EighthBlockManager.get_first_upcoming_block / get_current_blocks.

  /** Before 17:00 the cutoff is today's midnight, from 17:00 on it is now. */
  function Cutoff(now: int): int {
    if (now % SecondsPerDay) / SecondsPerHour < EveningHour then now - now % SecondsPerDay
    else now
  }

  /** A block qualifies when its date (at midnight) is not before the cutoff. */
  predicate NotBefore(b: Block, cutoff: int) {
    b.date * SecondsPerDay >= cutoff
  }

  function FromCutoff(rows: seq<Block>, cutoff: int): (r: seq<Block>)
    ensures forall x :: x in r <==> x in rows && NotBefore(x, cutoff)
  {
    if rows == [] then []
    else
      var t := FromCutoff(rows[1..], cutoff);
      assert rows == [rows[0]] + rows[1..];
      if NotBefore(rows[0], cutoff) then [rows[0]] + t else t
  }

  function FirstUpcomingBlock(rows: seq<Block>, now: int): Option<Block> {
    var candidates := Sort(FromCutoff(rows, Cutoff(now)));
    if |candidates| == 0 then None else Some(candidates[0])
  }

  /**
   * The first upcoming block is the (date, letter)-least block whose date is
   * not before the cutoff, and there is none exactly when no block qualifies.
   */
  lemma FirstUpcomingIsLeast(rows: seq<Block>, now: int)
    ensures var r := FirstUpcomingBlock(rows, now);
      && (r.None? <==> forall x :: x in rows ==> !NotBefore(x, Cutoff(now)))
      && (r.Some? ==> r.value in rows && NotBefore(r.value, Cutoff(now))
                      && forall x :: x in rows && NotBefore(x, Cutoff(now)) ==> !Precedes(x, r.value))
  {
    var c := Sort(FromCutoff(rows, Cutoff(now)));
    forall x ensures x in c <==> x in rows && NotBefore(x, Cutoff(now)) {
      assert x in c <==> x in multiset(c);
    }
    if |c| > 0 {
      assert c[0] in c;
      forall x | x in rows && NotBefore(x, Cutoff(now)) ensures !Precedes(x, c[0]) {
        var k :| 0 <= k < |c| && c[k] == x;
        if k > 0 {
          assert !Precedes(c[k], c[0]);
        } else {
          PrecedesIrreflexive(x, x);
        }
      }
    }
  }

  /**
   * Before 17:00 on day `day` every block dated `day` or later qualifies;
   * from 17:00 on only blocks dated after `day` do.
   */
  lemma UpcomingDatesByHour(day: int, seconds: int, b: Block)
    requires 0 <= seconds < SecondsPerDay
    ensures var now := day * SecondsPerDay + seconds;
      NotBefore(b, Cutoff(now)) <==> if seconds < EveningHour * SecondsPerHour then b.date >= day else b.date > day
  {
    var now := day * SecondsPerDay + seconds;
    assert now % SecondsPerDay == seconds && now / SecondsPerDay == day;
    if seconds < EveningHour * SecondsPerHour {
      assert seconds / SecondsPerHour < EveningHour;
      assert Cutoff(now) == day * SecondsPerDay;
    } else {
      assert seconds / SecondsPerHour >= EveningHour;
      assert Cutoff(now) == now;
      if b.date > day {
        assert b.date * SecondsPerDay >= (day + 1) * SecondsPerDay;
      } else {
        assert b.date * SecondsPerDay <= day * SecondsPerDay;
      }
    }
  }

  /** get_current_blocks: [] without an upcoming block, else its surroundings. */
  function CurrentBlocks(rows: seq<Block>, now: int): seq<Block> {
    match FirstUpcomingBlock(rows, now)
    case None => []
    case Some(b) => Surrounding(rows, b)
  }

  /**
   * The current blocks are empty when nothing is upcoming and otherwise the
   * whole table in ascending order.
   */
  lemma CurrentBlocksAreWholeTable(rows: seq<Block>, now: int)
    requires UniqueKeys(rows)
    ensures var r := CurrentBlocks(rows, now);
      && (r == [] <==> forall x :: x in rows ==> !NotBefore(x, Cutoff(now)))
      && (r != [] ==> StrictlySorted(r) && multiset(r) == multiset(rows))
  {
    FirstUpcomingIsLeast(rows, now);
    var first := FirstUpcomingBlock(rows, now);
    if first.Some? {
      SurroundingIsWholeTable(rows, first.value);
    }
  }

  // ---------------------------------------------------------------------
  // EighthBlock.save: the letter is capitalised before the row is written.

  function Upper(c: char): char {
    if 'a' <= c <= 'z' then (c as int - 32) as char else c
  }

  function Lower(c: char): char {
    if 'A' <= c <= 'Z' then (c as int + 32) as char else c
  }

  /** str.capitalize over ASCII letters: first upper-case, the rest lower-case. */
  predicate IsCapitalized(s: string) {
    (|s| > 0 ==> !('a' <= s[0] <= 'z')) && forall i :: 1 <= i < |s| ==> !('A' <= s[i] <= 'Z')
  }

  function Capitalize(s: string): (r: string)
    ensures |r| == |s| && IsCapitalized(r)
    ensures forall i :: 0 <= i < |s| ==> Lower(r[i]) == Lower(s[i])
  {
    if s == [] then []
    else
      CaseOfUpper(s[0]);
      [Upper(s[0])] + LowerAll(s[1..])
  }

  /** Every letter lower-cased. */
  function LowerAll(s: string): (r: string)
    ensures |r| == |s| && forall i :: 0 <= i < |s| ==> r[i] == Lower(s[i]) && !('A' <= r[i] <= 'Z')
    ensures forall i :: 0 <= i < |s| ==> Lower(r[i]) == Lower(s[i])
  {
    seq(|s|, i requires 0 <= i < |s| => Lower(s[i]))
  }

  lemma CaseOfUpper(c: char)
    ensures !('a' <= Upper(c) <= 'z') && Lower(Upper(c)) == Lower(c)
    ensures Upper(Upper(c)) == Upper(c)
  {
  }

  lemma LowerAllIdempotent(t: string)
    requires forall i :: 0 <= i < |t| ==> !('A' <= t[i] <= 'Z')
    ensures LowerAll(t) == t
  {
    assert forall i :: 0 <= i < |t| ==> LowerAll(t)[i] == t[i];
  }

  /** Saving a block twice writes the same letter. */
  lemma CapitalizeIdempotent(s: string)
    ensures Capitalize(Capitalize(s)) == Capitalize(s)
  {
    var c := Capitalize(s);
    if s != [] {
      var t := LowerAll(s[1..]);
      assert c == [Upper(s[0])] + t;
      assert c[0] == Upper(s[0]) && c[1..] == t;
      CaseOfUpper(s[0]);
      LowerAllIdempotent(t);
    }
  }

  /** Another row (other id) already holds w's (date, letter) pair. */
  predicate KeyTaken(rows: seq<Block>, w: Block) {
    exists x :: x in rows && x.id != w.id && SameKey(x, w)
  }

  /** Writes w: replaces the row with w's id, or appends w when there is none. */
  function Upsert(rows: seq<Block>, w: Block): (r: seq<Block>)
    requires UniqueIds(rows)
    ensures forall x :: x in r <==> x == w || (x in rows && x.id != w.id)
    ensures UniqueIds(r)
  {
    if rows == [] then [w]
    else
      assert rows == [rows[0]] + rows[1..];
      HeadApart(rows);
      if rows[0].id == w.id then
        ConsUniqueIds(w, rows[1..]);
        [w] + rows[1..]
      else
        var t := Upsert(rows[1..], w);
        ConsUniqueIds(rows[0], t);
        [rows[0]] + t
  }

  /** A write that clashes with no other row keeps (date, letter) unique. */
  lemma {:induction false} UpsertKeepsKeysUnique(rows: seq<Block>, w: Block)
    requires UniqueIds(rows) && UniqueKeys(rows) && !KeyTaken(rows, w)
    ensures UniqueKeys(Upsert(rows, w))
  {
    if rows != [] {
      assert rows == [rows[0]] + rows[1..];
      HeadApart(rows);
      if rows[0].id == w.id {
        ConsUniqueKeys(w, rows[1..]);
      } else {
        UpsertKeepsKeysUnique(rows[1..], w);
        ConsUniqueKeys(rows[0], Upsert(rows[1..], w));
      }
    }
  }

  /** The block table with the uniqueness the database enforces. */
  class BlockTable {
    var rows: seq<Block>

    ghost predicate Valid()
      reads this
    {
      UniqueIds(rows) && UniqueKeys(rows)
    }

    constructor ()
      ensures Valid() && rows == []
    {
      rows := [];
    }

    /**
     * EighthBlock.save: capitalises a non-empty letter, then writes the row;
     * the (date, letter) uniqueness constraint refuses a clash with another row.
     */
    method Save(b: Block) returns (saved: Result<Block, DbError>)
      requires Valid()
      modifies this
      ensures Valid()
      ensures var w := b.(letter := if b.letter != "" then Capitalize(b.letter) else b.letter);
        && saved == (if KeyTaken(old(rows), w) then Failure(IntegrityError) else Success(w))
        && rows == (if saved.Success? then Upsert(old(rows), w) else old(rows))
    {
      var w := b;
      if b.letter != "" {
        w := w.(letter := Capitalize(b.letter));
      }
      if KeyTaken(rows, w) {
        return Failure(IntegrityError);
      }
      UpsertKeepsKeysUnique(rows, w);
      rows := Upsert(rows, w);
      saved := Success(w);
    }
  }
}
