/**
 * The line iterator of util/util.c: a one-line-lookahead tokenizer over
 * the first `len` bytes of an input buffer.
 *
 * `line_iter` keeps a read position `pos`, the current line `cur` and the
 * line after it `next`; each line is a view into the input, here its
 * start offset (None for NULL) and its length.  Every view the iterator
 * hands out is a whole line: it starts at the beginning of the input or
 * after a '\n', holds no '\n', and ends at a '\n' or at `len`; and `cur`
 * and `next` are consecutive lines.
 */
module LineIter {

  import opened Wrappers

  /** The fields of `line_iter` that change, with `cur` and `next` as offsets. */
  datatype IterState = IterState(pos: nat, curLen: nat, nextLen: nat, cur: Option<nat>, next: Option<nat>)

  /** `line_iter iter = {0}` with `cur` and `next` NULL. */
  function Start(): IterState
  {
    IterState(0, 0, 0, None, None)
  }

  /** Where the line starting at `p` ends: the first '\n' at or after `p`, or `len`. */
  function LineEnd(input: seq<char>, len: nat, p: nat): (e: nat)
    requires len <= |input| && p <= len
    ensures p <= e <= len
    ensures forall i :: p <= i < e ==> input[i] != '\n'
    ensures e < len ==> input[e] == '\n'
    decreases len - p
  {
    if p == len || input[p] == '\n' then p else LineEnd(input, len, p + 1)
  }

  /** `input[start..start + length)` is a whole line of `input[0..len)`. */
  predicate IsLine(input: seq<char>, len: nat, start: nat, length: nat)
    requires len <= |input|
  {
    start + length <= len
    && (start == 0 || input[start - 1] == '\n')
    && (forall i :: start <= i < start + length ==> input[i] != '\n')
    && (start + length == len || input[start + length] == '\n')
  }

  /**
   * `line_iter_next`: past the end, `next` moves into `cur` and `next`
   * becomes NULL; otherwise `next` moves into `cur`, the line at `pos`
   * becomes `next`, and `pos` moves one past its end.
   */
  function NextState(input: seq<char>, len: nat, st: IterState): IterState
    requires len <= |input|
  {
    if st.pos >= len then IterState(st.pos, st.nextLen, 0, st.next, None)
    else
      var e := LineEnd(input, len, st.pos);
      IterState(e + 1, st.nextLen, e - st.pos, st.next, Some(st.pos))
  }

  /**
   * What holds of the iterator between calls: `pos` is at the start of a
   * line or one past the end; `next`, when set, is the line just before
   * `pos`; `cur`, when set, is a line and is followed directly by `next`;
   * a NULL view has length 0.
   */
  predicate Wf(input: seq<char>, len: nat, st: IterState)
    requires len <= |input|
  {
    (st.pos == 0 || (st.pos <= len && input[st.pos - 1] == '\n') || st.pos == len + 1)
    && (st.next.Some? ==> IsLine(input, len, st.next.value, st.nextLen) && st.pos == st.next.value + st.nextLen + 1)
    && (st.cur.Some? ==> IsLine(input, len, st.cur.value, st.curLen))
    && (st.cur.Some? && st.next.Some? ==> st.next.value == st.cur.value + st.curLen + 1)
    && (st.next.None? ==> st.nextLen == 0)
    && (st.cur.None? ==> st.curLen == 0)
  }

  /** Nothing left: past the end with both views NULL. */
  predicate Done(len: nat, st: IterState)
  {
    st.pos >= len && st.cur.None? && st.next.None?
  }

  /**
   * What is left to hand out: each unread byte counts three, `next` two
   * (it is handed out twice more, as `next` and then as `cur`), `cur` one.
   */
  function Remaining(len: nat, st: IterState): nat
  {
    3 * (if st.pos < len then len - st.pos else 0)
    + (if st.cur.Some? then 1 else 0) + (if st.next.Some? then 2 else 0)
  }

  lemma StartIsWf(input: seq<char>, len: nat)
    requires len <= |input|
    ensures Wf(input, len, Start())
  {
  }

  /**
   * `line_iter_next` keeps the iterator well formed; the new `next`, when
   * it reads a line, lies inside `input[0..len)`, holds no '\n' and is the
   * line starting at the old `pos`, which strictly increases.
   */
  lemma NextKeepsWf(input: seq<char>, len: nat, st: IterState)
    requires len <= |input| && Wf(input, len, st)
    ensures var r := NextState(input, len, st);
            Wf(input, len, r) && r.cur == st.next && r.curLen == st.nextLen
            && (st.pos < len ==> r.next == Some(st.pos) && IsLine(input, len, st.pos, r.nextLen) && r.pos > st.pos)
            && (st.pos >= len ==> r.next.None? && r.nextLen == 0 && r.pos == st.pos)
  {
  }

  /**
   * Each call either finds the iterator exhausted and leaves it as it is,
   * or strictly shrinks what is left, so after finitely many calls `cur`
   * is NULL for good.
   */
  lemma NextProgress(input: seq<char>, len: nat, st: IterState)
    requires len <= |input| && Wf(input, len, st)
    ensures Done(len, st) <==> Remaining(len, st) == 0
    ensures Done(len, st) ==> NextState(input, len, st) == st
    ensures !Done(len, st) ==> Remaining(len, NextState(input, len, st)) < Remaining(len, st)
  {
  }

  /** `n` calls of `line_iter_next`. */
  function Steps(input: seq<char>, len: nat, st: IterState, n: nat): IterState
    requires len <= |input|
    decreases n
  {
    if n == 0 then st else Steps(input, len, NextState(input, len, st), n - 1)
  }

  /** After as many calls as there is left, the iterator is exhausted and stays so. */
  lemma {:induction false} ExhaustedAfter(input: seq<char>, len: nat, st: IterState, n: nat)
    requires len <= |input| && Wf(input, len, st) && n >= Remaining(len, st)
    ensures Done(len, Steps(input, len, st, n)) && Wf(input, len, Steps(input, len, st, n))
    decreases n
  {
    NextProgress(input, len, st);
    NextKeepsWf(input, len, st);
    if n > 0 {
      ExhaustedAfter(input, len, NextState(input, len, st), n - 1);
    } else {
      assert Remaining(len, st) == 0;
    }
  }

  /**
   * `line_iter_new` advances twice from the start: `cur` is the first line
   * (NULL exactly for empty input), and `next` is the line after it, NULL
   * exactly when the first line ends the input.
   */
  lemma NewLines(input: seq<char>, len: nat)
    requires len <= |input|
    ensures var st := NextState(input, len, NextState(input, len, Start()));
            Wf(input, len, st)
            && (st.cur.Some? <==> len > 0)
            && (st.cur.Some? ==> st.cur.value == 0 && IsLine(input, len, 0, st.curLen))
            && (st.next.Some? <==> len > 0 && st.curLen + 1 < len)
            && (st.next.Some? ==> st.next.value == st.curLen + 1
                                  && IsLine(input, len, st.next.value, st.nextLen))
  {
    StartIsWf(input, len);
    NextKeepsWf(input, len, Start());
    NextKeepsWf(input, len, NextState(input, len, Start()));
  }

  /**
   * Past the end, a call hands `next` over to `cur`; a second such call
   * makes `cur` NULL.
   */
  lemma PastEndTwice(input: seq<char>, len: nat, st: IterState)
    requires len <= |input| && Wf(input, len, st) && st.pos >= len
    ensures var r := NextState(input, len, st);
            r.cur == st.next && r.curLen == st.nextLen && r.next.None? && r.nextLen == 0
            && Done(len, NextState(input, len, r))
  {
  }

  /** The whole lines of `input[0..len)` from offset `p` on, as (start, length). */
  function Lines(input: seq<char>, len: nat, p: nat): seq<(nat, nat)>
    requires len <= |input|
    decreases if p < len then len - p else 0
  {
    if p >= len then []
    else
      var e := LineEnd(input, len, p);
      [(p, e - p)] + Lines(input, len, e + 1)
  }

  /** The lines still to come as `cur`: `cur`, `next`, then the lines from `pos`. */
  function Pending(input: seq<char>, len: nat, st: IterState): seq<(nat, nat)>
    requires len <= |input|
  {
    (if st.cur.Some? then [(st.cur.value, st.curLen)] else [])
    + (if st.next.Some? then [(st.next.value, st.nextLen)] else [])
    + Lines(input, len, st.pos)
  }

  /**
   * A call of `line_iter_next` drops the current line from what is still
   * to come and nothing else, so the `cur` views run through the lines of
   * the input in order.
   */
  lemma NextDropsCur(input: seq<char>, len: nat, st: IterState)
    requires len <= |input|
    ensures Pending(input, len, st)
            == (if st.cur.Some? then [(st.cur.value, st.curLen)] else []) + Pending(input, len, NextState(input, len, st))
  {
    var c := if st.cur.Some? then [(st.cur.value, st.curLen)] else [];
    var n := if st.next.Some? then [(st.next.value, st.nextLen)] else [];
    var r := NextState(input, len, st);
    assert Pending(input, len, st) == c + n + Lines(input, len, st.pos);
    if st.pos < len {
      var e := LineEnd(input, len, st.pos);
      var line, rest := (st.pos, e - st.pos), Lines(input, len, e + 1);
      assert r == IterState(e + 1, st.nextLen, e - st.pos, st.next, Some(st.pos));
      assert Lines(input, len, st.pos) == [line] + rest;
      assert Pending(input, len, r) == n + [line] + rest;
      assert c + n + ([line] + rest) == c + (n + [line] + rest);
    } else {
      assert r == IterState(st.pos, st.nextLen, 0, st.next, None);
      assert Lines(input, len, st.pos) == [];
      assert Pending(input, len, r) == n + [];
    }
  }

  /**
   * After `line_iter_new` every line of the input is still to come, the
   * first of them in `cur`; `cur` is NULL exactly when there are none.
   */
  lemma NewPendsAllLines(input: seq<char>, len: nat)
    requires len <= |input|
    ensures var st := NextState(input, len, NextState(input, len, Start()));
            Pending(input, len, st) == Lines(input, len, 0)
            && (st.cur.None? <==> Lines(input, len, 0) == [])
  {
    NewLines(input, len);
    NextDropsCur(input, len, Start());
    StartIsWf(input, len);
    NextKeepsWf(input, len, Start());
    NextDropsCur(input, len, NextState(input, len, Start()));
  }

  /** The number of '\n' bytes in `input[p..len)`. */
  function NewlinesFrom(input: seq<char>, p: nat, len: nat): nat
    requires len <= |input|
    decreases len - p
  {
    if p >= len then 0 else (if input[p] == '\n' then 1 else 0) + NewlinesFrom(input, p + 1, len)
  }

  /** The count is the multiplicity of '\n' in the multiset of `input[p..len)`. */
  lemma {:induction false} NewlinesFromIsMultiplicity(input: seq<char>, p: nat, len: nat)
    requires p <= len <= |input|
    ensures NewlinesFrom(input, p, len) == multiset(input[p..len])['\n']
    decreases len - p
  {
    if p < len {
      assert input[p..len] == [input[p]] + input[p + 1..len];
      NewlinesFromIsMultiplicity(input, p + 1, len);
    } else {
      assert input[p..len] == [];
    }
  }

  /** A stretch `[p, e)` without '\n' adds nothing to the count. */
  lemma {:induction false} NoNewline(input: seq<char>, p: nat, e: nat, len: nat)
    requires p <= e <= len <= |input|
    requires forall i :: p <= i < e ==> input[i] != '\n'
    ensures NewlinesFrom(input, p, len) == NewlinesFrom(input, e, len)
    decreases e - p
  {
    if p < e {
      NoNewline(input, p + 1, e, len);
    }
  }

  /**
   * The lines from a line start `p` number the '\n' bytes of
   * `input[p..len)`, plus one for a last line without a '\n'.
   */
  lemma {:induction false} LinesCount(input: seq<char>, len: nat, p: nat)
    requires len <= |input| && p <= len
    ensures |Lines(input, len, p)|
            == NewlinesFrom(input, p, len) + (if p < len && input[len - 1] != '\n' then 1 else 0)
    decreases len - p
  {
    if p < len {
      var e := LinesStep(input, len, p);
      if e < len {
        LinesCount(input, len, e + 1);
        var tail := if e + 1 < len && input[len - 1] != '\n' then 1 else 0;
        assert |Lines(input, len, e + 1)| == NewlinesFrom(input, e + 1, len) + tail;
        assert tail == (if input[len - 1] != '\n' then 1 else 0);
      }
    } else {
      assert Lines(input, len, p) == [] && NewlinesFrom(input, p, len) == 0;
    }
  }

  /**
   * One line of the count: the line at `p` ends at `e`, at a '\n' that is
   * the only one in `[p, e]`, or at the end of an input whose last byte
   * is not '\n'.
   */
  lemma LinesStep(input: seq<char>, len: nat, p: nat) returns (e: nat)
    requires p < len <= |input|
    ensures p <= e <= len
    ensures |Lines(input, len, p)| == 1 + |Lines(input, len, e + 1)|
    ensures e < len ==> NewlinesFrom(input, p, len) == 1 + NewlinesFrom(input, e + 1, len)
                        && (e + 1 == len ==> input[len - 1] == '\n')
    ensures e == len ==> NewlinesFrom(input, p, len) == 0 && input[len - 1] != '\n'
                         && Lines(input, len, e + 1) == []
  {
    e := LineEnd(input, len, p);
    NoNewline(input, p, e, len);
  }

  /**
   * `num_lines` against the iterator: the number of lines it hands out is
   * the '\n' count, plus one when the input does not end in '\n'.
   */
  lemma NumLinesCountsLines(input: seq<char>, len: nat)
    requires len <= |input|
    ensures |Lines(input, len, 0)|
            == multiset(input[..len])['\n'] + (if len > 0 && input[len - 1] != '\n' then 1 else 0)
  {
    LinesCount(input, len, 0);
    NewlinesFromIsMultiplicity(input, 0, len);
    assert input[0..len] == input[..len];
  }

  /** `line_iter`: the input view and its length, the position and the two line views. */
  class Iter {

    const input: seq<char>
    const len: nat
    var pos: nat
    var curLen: nat
    var nextLen: nat
    var cur: Option<nat>
    var next: Option<nat>

    function State(): IterState
      reads this
    {
      IterState(pos, curLen, nextLen, cur, next)
    }

    /** `line_iter_new`: zeroed fields, `pos` 0, then two calls of `line_iter_next`. */
    constructor (input: seq<char>, len: nat)
      requires len <= |input|
      ensures this.input == input && this.len == len
      ensures State() == NextState(input, len, NextState(input, len, Start()))
    {
      this.input := input;
      this.len := len;
      pos := 0;
      curLen := 0;
      nextLen := 0;
      cur := None;
      next := None;
      new;
      Next();
      Next();
    }

    /** `line_iter_next`, scanning for the end of the line at `pos`. */
    method Next()
      requires len <= |input|
      modifies this
      ensures State() == NextState(input, len, old(State()))
    {
      if pos >= len {
        cur := next;
        next := None;
        curLen := nextLen;
        nextLen := 0;
        return;
      }
      curLen := nextLen;
      cur := next;
      next := Some(pos);
      var p := pos;
      var oldPos := p;
      while p < len && input[p] != '\n'
        invariant oldPos <= p <= len
        invariant LineEnd(input, len, p) == LineEnd(input, len, oldPos)
        decreases len - p
      {
        p := p + 1;
      }
      pos := p + 1;
      nextLen := p - oldPos;
    }

    /** `num_lines`: the number of '\n' bytes in `input[0..len)`. */
    method NumLines() returns (res: nat)
      requires len <= |input|
      ensures res == multiset(input[..len])['\n']
    {
      res := 0;
      for i := 0 to len
        invariant res == multiset(input[..i])['\n']
      {
        assert input[..i + 1] == input[..i] + [input[i]];
        if input[i] == '\n' {
          res := res + 1;
        }
      }
    }
  }
}
