/** Shared vocabulary of the three statement parsers: what the PDF table
    extractor hands over (pages of tables of rows of optional cells), the five
    logical output columns, and the calendar dates that date parsing yields. */
module Statement {

  datatype Option<+T> = None | Some(value: T) {
    function GetOr(default: T): T {
      match this
      case Some(v) => v
      case None => default
    }
  }

  datatype Result<+R, +E> = Ok(value: R) | Err(error: E)

  /** One cell as the table extractor returns it: text, or nothing at all. */
  type Cell = Option<string>
  type Row = seq<Cell>
  type Table = seq<Row>
  /** The tables found on one page, in extraction order. */
  type Page = seq<Table>

  /** The five logical columns, in output order. */
  datatype Column = Date | Description | Debit | Credit | Balance

  /** A day-precision date, what day-first date parsing produces once the
      time of day has been dropped. */
  datatype CalendarDate = CalendarDate(year: int, month: int, day: int)

  /** Day-first date parsing of a cell's text; `None` when the text is not a date. */
  type DateParser = string -> Option<CalendarDate>

  /** `f` applied to every element, in order. */
  function Map<A, B>(f: A -> B, s: seq<A>): seq<B> {
    if s == [] then [] else Map(f, s[..|s| - 1]) + [f(s[|s| - 1])]
  }

  lemma {:induction false} MapAt<A, B>(f: A -> B, s: seq<A>)
    ensures |Map(f, s)| == |s|
    ensures forall i :: 0 <= i < |s| ==> Map(f, s)[i] == f(s[i])
    decreases |s|
  {
    if s != [] {
      var init := s[..|s| - 1];
      MapAt(f, init);
      assert forall i :: 0 <= i < |init| ==> init[i] == s[i];
    }
  }

  /** The defined values of `f` over `s`, in order: `f` drops an element by
      answering `None`. */
  function FilterMap<A, B>(f: A -> Option<B>, s: seq<A>): seq<B> {
    if s == [] then []
    else
      FilterMap(f, s[..|s| - 1]) + match f(s[|s| - 1]) { case Some(y) => [y] case None => [] }
  }

  /** One more element extends the result by that element's value, if any. */
  lemma FilterMapSnoc<A, B>(f: A -> Option<B>, s: seq<A>, i: nat)
    requires i < |s|
    ensures FilterMap(f, s[..i + 1]) == FilterMap(f, s[..i]) + match f(s[i]) { case Some(y) => [y] case None => [] }
  {
    assert s[..i + 1][..i] == s[..i];
  }

  lemma {:induction false} FilterMapConcat<A, B>(f: A -> Option<B>, a: seq<A>, b: seq<A>)
    ensures FilterMap(f, a + b) == FilterMap(f, a) + FilterMap(f, b)
    decreases |b|
  {
    if b == [] {
      assert a + b == a;
    } else {
      var init := b[..|b| - 1];
      assert (a + b)[..|a + b| - 1] == a + init;
      FilterMapConcat(f, a, init);
      match f(b[|b| - 1])
      case Some(y) =>
        AppendAssociative(FilterMap(f, a), FilterMap(f, init), [y]);
      case None =>
    }
  }

  lemma {:induction false} FilterMapMembership<A, B>(f: A -> Option<B>, s: seq<A>, y: B)
    ensures y in FilterMap(f, s) <==> exists x :: x in s && f(x) == Some(y)
    decreases |s|
  {
    if s != [] {
      var init, last := s[..|s| - 1], s[|s| - 1];
      FilterMapMembership(f, init, y);
      assert s == init + [last];
      if y in FilterMap(f, s) && y !in FilterMap(f, init) {
        assert f(last) == Some(y);
      }
      if exists x :: x in s && f(x) == Some(y) {
        var x :| x in s && f(x) == Some(y);
        if x != last {
          assert x in init;
        }
      }
    }
  }

  // Sequence facts, stated once for any element type so that proofs about
  // sequences of tables need not rediscover them.

  lemma AppendAssociative<T>(x: seq<T>, y: seq<T>, z: seq<T>)
    ensures x + y + z == x + (y + z)
  {
  }

  lemma AppendEmpty<T>(s: seq<T>, none: seq<T>)
    requires none == []
    ensures s + none == s
  {
  }

  lemma TakeAll<T>(s: seq<T>)
    ensures s[..|s|] == s
  {
  }

  lemma TakeSnoc<T>(s: seq<T>, i: nat)
    requires i < |s|
    ensures s[..i + 1] == s[..i] + [s[i]]
  {
  }

  lemma TakeOfTake<T>(s: seq<T>, i: nat, j: nat)
    requires i <= j <= |s|
    ensures s[..j][..i] == s[..i]
  {
  }

  lemma SplitAt<T>(s: seq<T>, i: nat)
    requires i <= |s|
    ensures s == s[..i] + s[i..]
  {
  }

  lemma SliceCons<T>(s: seq<T>, i: nat, n: nat)
    requires i < n <= |s|
    ensures s[i..n] == [s[i]] + s[i + 1..n]
  {
  }

  lemma SliceOfSlice<T>(s: seq<T>, a: nat, b: nat, i: nat, j: nat)
    requires a <= b <= |s| && i <= j <= b - a
    ensures s[a..b][i..j] == s[a + i..a + j]
  {
    assert |s[a..b][i..j]| == |s[a + i..a + j]|;
    forall k | 0 <= k < j - i ensures s[a..b][i..j][k] == s[a + i..a + j][k] {
      assert s[a..b][i..j][k] == s[a..b][i + k] == s[a + i + k];
    }
  }

  lemma PrefixOfAppend<T>(a: seq<T>, b: seq<T>)
    ensures (a + b)[..|a|] == a
  {
  }

  lemma SuffixOfAppend<T>(a: seq<T>, b: seq<T>)
    ensures (a + b)[|a|..] == b
  {
  }

  lemma InitOfAppend<T>(a: seq<T>, b: seq<T>)
    requires b != []
    ensures (a + b)[..|a + b| - 1] == a + b[..|b| - 1]
  {
  }
}
