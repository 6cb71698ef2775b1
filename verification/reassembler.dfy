/**
 * The reassembler: accepts substrings of the stream at arbitrary indices and in any order,
 * keeps the ones that cannot be written yet in a sorted, merged, gapped pending list, and
 * writes the contiguous prefix into the output byte stream.
 */
module Reassembly {
  import opened Common
  import opened ByteStreams

  /** A pending substring: its absolute first index, its bytes, and whether it ends the stream. */
  datatype Span = Span(start: nat, data: seq<char>, isLast: bool)

  /** One past the last index a span occupies. */
  function End(s: Span): nat {
    s.start + |s.data|
  }

  function Last(spans: seq<Span>): Span
    requires spans != []
  {
    spans[|spans| - 1]
  }

  /** Spans sorted by start and strictly gapped: each one ends before any later one starts. */
  ghost predicate Gapped(spans: seq<Span>) {
    forall i, j :: 0 <= i < j < |spans| ==> End(spans[i]) < spans[j].start
  }

  ghost predicate SortedByStart(spans: seq<Span>) {
    forall i, j :: 0 <= i < j < |spans| ==> spans[i].start <= spans[j].start
  }

  predicate InSpan(s: Span, p: nat) {
    s.start <= p < End(s)
  }

  /** Some span holds stream index `p`. */
  ghost predicate Covers(spans: seq<Span>, p: nat) {
    exists i :: 0 <= i < |spans| && InSpan(spans[i], p)
  }

  /** The span's bytes are those of the true stream `t` at the span's indices. */
  ghost predicate SliceOf(t: seq<char>, s: Span) {
    End(s) <= |t| && s.data == t[s.start..End(s)]
  }

  ghost predicate AllSlicesOf(t: seq<char>, spans: seq<Span>) {
    forall i :: 0 <= i < |spans| ==> SliceOf(t, spans[i])
  }

  // ---------------------------------------------------------------------------------------
  // insertToBuffer: sorted insertion followed by interval merging

  /** The scan in insertToBuffer stops before a span that starts later, or at the same index and is longer. */
  predicate Before(first: nat, len: nat, s: Span) {
    first < s.start || (first == s.start && len < |s.data|)
  }

  /** Where insertToBuffer inserts a span: the first position it belongs before. */
  function InsertPos(spans: seq<Span>, first: nat, len: nat): (r: nat)
    ensures r <= |spans|
    ensures forall j :: 0 <= j < r ==> !Before(first, len, spans[j])
    ensures r < |spans| ==> Before(first, len, spans[r])
    decreases |spans|
  {
    if spans == [] then 0
    else if Before(first, len, spans[0]) then 0
    else 1 + InsertPos(spans[1..], first, len)
  }

  function InsertAt(spans: seq<Span>, idx: nat, s: Span): (r: seq<Span>)
    requires idx <= |spans|
    ensures |r| == |spans| + 1 && r[idx] == s
    ensures forall j :: 0 <= j < idx ==> r[j] == spans[j]
    ensures forall j :: idx < j < |r| ==> r[j] == spans[j - 1]
  {
    spans[..idx] + [s] + spans[idx..]
  }

  /**
   * One step of the merge loop: append a span that starts after a gap; drop a span wholly
   * inside the last merged one (its is_last flag with it); otherwise extend the last merged
   * span with the new bytes and carry the new span's is_last flag onto it.
   */
  function MergeStep(acc: seq<Span>, item: Span): (r: seq<Span>)
    ensures |acc| <= |r| <= |acc| + 1
  {
    if acc == [] || End(Last(acc)) < item.start then acc + [item]
    else
      var last := Last(acc);
      if End(item) <= End(last) then acc
      else
        var extended := Span(last.start, last.data + item.data[End(last) - item.start..],
                             if item.isLast then true else last.isLast);
        acc[..|acc| - 1] + [extended]
  }

  /** The merged list the loop over `items` builds. */
  function Merge(items: seq<Span>): seq<Span>
    decreases |items|
  {
    if items == [] then [] else MergeStep(Merge(items[..|items| - 1]), Last(items))
  }

  /** The pending list after insertToBuffer. */
  function Stash(pending: seq<Span>, s: Span): seq<Span> {
    if pending == [] then [s]
    else Merge(InsertAt(pending, InsertPos(pending, s.start, |s.data|), s))
  }

  /** A span inside the last merged one leaves the list unchanged; one that reaches past it passes its is_last flag on. */
  lemma MergeStepFlags(acc: seq<Span>, item: Span)
    requires acc != [] && item.start <= End(Last(acc))
    ensures End(item) <= End(Last(acc)) ==> MergeStep(acc, item) == acc
    ensures End(item) > End(Last(acc)) ==>
              && |MergeStep(acc, item)| == |acc|
              && End(Last(MergeStep(acc, item))) == End(item)
              && Last(MergeStep(acc, item)).isLast == (item.isLast || Last(acc).isLast)
  {
  }

  lemma MergeStepGapped(acc: seq<Span>, item: Span)
    requires Gapped(acc)
    ensures Gapped(MergeStep(acc, item))
  {
    var r := MergeStep(acc, item);
    if acc == [] || End(Last(acc)) < item.start {
      forall i | 0 <= i < |acc| ensures End(acc[i]) < item.start {
        if i < |acc| - 1 {
          assert End(acc[i]) < Last(acc).start;
        }
      }
    } else if End(item) > End(Last(acc)) {
      assert r[|r| - 1].start == Last(acc).start;
      forall i, j | 0 <= i < j < |r| ensures End(r[i]) < r[j].start {
        assert r[i] == acc[i];
        if j < |r| - 1 {
          assert r[j] == acc[j];
        }
      }
    }
  }

  /** The merge output is gapped, whatever the order of its input. */
  lemma {:induction false} MergeGapped(items: seq<Span>)
    ensures Gapped(Merge(items))
    decreases |items|
  {
    if items != [] {
      MergeGapped(items[..|items| - 1]);
      MergeStepGapped(Merge(items[..|items| - 1]), Last(items));
    }
  }

  /** Merging never invents a start index: every merged span starts at or before a bound on the input starts. */
  lemma {:induction false} MergeStartsBounded(items: seq<Span>, b: nat)
    requires forall i :: 0 <= i < |items| ==> items[i].start <= b
    ensures forall k :: 0 <= k < |Merge(items)| ==> Merge(items)[k].start <= b
    decreases |items|
  {
    if items != [] {
      var front := items[..|items| - 1];
      MergeStartsBounded(front, b);
      var acc := Merge(front);
      var r := MergeStep(acc, Last(items));
      forall k | 0 <= k < |r| ensures r[k].start <= b {
        if k < |acc| {
          assert r[k].start == acc[k].start;
        }
      }
    }
  }

  lemma CoversAppend(a: seq<Span>, b: seq<Span>, p: nat)
    ensures Covers(a + b, p) <==> Covers(a, p) || Covers(b, p)
  {
    if Covers(a + b, p) {
      var i :| 0 <= i < |a + b| && InSpan((a + b)[i], p);
      if i < |a| {
        assert InSpan(a[i], p);
      } else {
        assert InSpan(b[i - |a|], p);
      }
    }
    if Covers(a, p) {
      var i :| 0 <= i < |a| && InSpan(a[i], p);
      assert (a + b)[i] == a[i];
    }
    if Covers(b, p) {
      var i :| 0 <= i < |b| && InSpan(b[i], p);
      assert (a + b)[|a| + i] == b[i];
    }
  }

  lemma CoversSingle(s: Span, p: nat)
    ensures Covers([s], p) <==> InSpan(s, p)
  {
    if InSpan(s, p) {
      assert [s][0] == s;
    }
  }

  lemma MergeStepCovers(acc: seq<Span>, item: Span, p: nat)
    requires acc == [] || Last(acc).start <= item.start
    ensures Covers(MergeStep(acc, item), p) <==> Covers(acc, p) || InSpan(item, p)
  {
    CoversSingle(item, p);
    if acc == [] || End(Last(acc)) < item.start {
      CoversAppend(acc, [item], p);
    } else {
      var last := Last(acc);
      var front := acc[..|acc| - 1];
      assert acc == front + [last];
      CoversAppend(front, [last], p);
      CoversSingle(last, p);
      if End(item) <= End(last) {
        if InSpan(item, p) {
          assert InSpan(last, p);
        }
      } else {
        var extended := Last(MergeStep(acc, item));
        assert MergeStep(acc, item) == front + [extended];
        CoversAppend(front, [extended], p);
        CoversSingle(extended, p);
        assert InSpan(extended, p) <==> InSpan(last, p) || InSpan(item, p);
      }
    }
  }

  /** On input sorted by start, merging keeps exactly the covered indices. */
  lemma {:induction false} MergeCovers(items: seq<Span>, p: nat)
    requires SortedByStart(items)
    ensures Covers(Merge(items), p) <==> Covers(items, p)
    decreases |items|
  {
    if items != [] {
      var front := items[..|items| - 1];
      var item := Last(items);
      assert items == front + [item];
      CoversAppend(front, [item], p);
      CoversSingle(item, p);
      MergeCovers(front, p);
      MergeStartsBounded(front, item.start);
      MergeStepCovers(Merge(front), item, p);
    }
  }

  lemma MergeStepSlices(acc: seq<Span>, item: Span, t: seq<char>)
    requires AllSlicesOf(t, acc) && SliceOf(t, item)
    ensures AllSlicesOf(t, MergeStep(acc, item))
  {
    if acc != [] && End(Last(acc)) >= item.start && End(item) > End(Last(acc)) {
      var last := Last(acc);
      var d := End(last) - item.start;
      assert SliceOf(t, last);
      assert item.data[d..] == t[End(last)..End(item)];
      assert t[last.start..End(last)] + t[End(last)..End(item)] == t[last.start..End(item)];
      var r := MergeStep(acc, item);
      assert SliceOf(t, Last(r));
      forall i | 0 <= i < |r| ensures SliceOf(t, r[i]) {
        if i < |r| - 1 {
          assert r[i] == acc[i];
        }
      }
    } else if acc == [] || End(Last(acc)) < item.start {
      var r := MergeStep(acc, item);
      forall i | 0 <= i < |r| ensures SliceOf(t, r[i]) {
        if i < |acc| {
          assert r[i] == acc[i];
        }
      }
    }
  }

  /** Merging spans of the true stream yields spans of the true stream: merged bytes are never garbled. */
  lemma {:induction false} MergeSlices(items: seq<Span>, t: seq<char>)
    requires AllSlicesOf(t, items)
    ensures AllSlicesOf(t, Merge(items))
    decreases |items|
  {
    if items != [] {
      var front := items[..|items| - 1];
      assert AllSlicesOf(t, front) by {
        forall i | 0 <= i < |front| ensures SliceOf(t, front[i]) {
          assert front[i] == items[i];
        }
      }
      MergeSlices(front, t);
      MergeStepSlices(Merge(front), Last(items), t);
    }
  }

  /** Inserting at InsertPos into a gapped list yields a list sorted by start. */
  lemma InsertSorted(spans: seq<Span>, s: Span)
    requires Gapped(spans)
    ensures SortedByStart(InsertAt(spans, InsertPos(spans, s.start, |s.data|), s))
  {
    var idx := InsertPos(spans, s.start, |s.data|);
    var r := InsertAt(spans, idx, s);
    forall i, j | 0 <= i < j < |r| ensures r[i].start <= r[j].start {
      if j < idx {
      } else if j == idx {
        assert !Before(s.start, |s.data|, spans[i]);
      } else if i < idx {
        assert !Before(s.start, |s.data|, spans[i]);
        assert Before(s.start, |s.data|, spans[idx]);
        assert spans[idx].start <= spans[j - 1].start;
      } else if i == idx {
        assert Before(s.start, |s.data|, spans[idx]);
        assert spans[idx].start <= spans[j - 1].start;
      } else {
        assert spans[i - 1].start < spans[j - 1].start;
      }
    }
  }

  /** insertToBuffer leaves the pending list sorted and strictly gapped. */
  lemma StashGapped(pending: seq<Span>, s: Span)
    ensures Gapped(Stash(pending, s))
  {
    if pending != [] {
      MergeGapped(InsertAt(pending, InsertPos(pending, s.start, |s.data|), s));
    }
  }

  /** insertToBuffer on a gapped list holds exactly the old indices plus those of the new span. */
  lemma StashCovers(pending: seq<Span>, s: Span, p: nat)
    requires Gapped(pending)
    ensures Covers(Stash(pending, s), p) <==> Covers(pending, p) || InSpan(s, p)
  {
    if pending == [] {
      CoversSingle(s, p);
    } else {
      var idx := InsertPos(pending, s.start, |s.data|);
      var items := InsertAt(pending, idx, s);
      InsertSorted(pending, s);
      MergeCovers(items, p);
      assert items == pending[..idx] + [s] + pending[idx..];
      assert pending == pending[..idx] + pending[idx..];
      CoversAppend(pending[..idx] + [s], pending[idx..], p);
      CoversAppend(pending[..idx], [s], p);
      CoversAppend(pending[..idx], pending[idx..], p);
      CoversSingle(s, p);
    }
  }

  /** insertToBuffer keeps every pending span a slice of the true stream. */
  lemma StashSlices(pending: seq<Span>, s: Span, t: seq<char>)
    requires AllSlicesOf(t, pending) && SliceOf(t, s)
    ensures AllSlicesOf(t, Stash(pending, s))
  {
    if pending != [] {
      var items := InsertAt(pending, InsertPos(pending, s.start, |s.data|), s);
      assert AllSlicesOf(t, items);
      MergeSlices(items, t);
    }
  }

  // ---------------------------------------------------------------------------------------
  // checkBuffer: flushing the pending spans that have become contiguous

  datatype FlushResult = FlushResult(kept: seq<Span>, view: WriterView)

  /**
   * One step of checkBuffer: a span wholly below bytes_pushed is dropped; one that reaches
   * bytes_pushed has its unwritten suffix pushed (closing the output if it is the last one);
   * one strictly ahead is kept.
   */
  function FlushItem(r: FlushResult, item: Span): FlushResult {
    var pushed := |r.view.written|;
    if End(item) <= pushed then r
    else if item.start < pushed && pushed < End(item) then
      var v := PushView(r.view, item.data[pushed - item.start..]);
      FlushResult(r.kept, if item.isLast then v.(closed := true) else v)
    else if pushed == item.start then
      var v := PushView(r.view, item.data);
      FlushResult(r.kept, if item.isLast then v.(closed := true) else v)
    else FlushResult(r.kept + [item], r.view)
  }

  /** The pending list and output after checkBuffer has looked at every span of `items` in order. */
  function Flush(items: seq<Span>, init: WriterView): FlushResult
    decreases |items|
  {
    if items == [] then FlushResult([], init)
    else FlushItem(Flush(items[..|items| - 1], init), Last(items))
  }

  lemma FlushSnoc(items: seq<Span>, init: WriterView, i: nat)
    requires i < |items|
    ensures Flush(items[..i + 1], init) == FlushItem(Flush(items[..i], init), items[i])
  {
    assert items[..i + 1][..i] == items[..i];
  }

  /** The span at position `i` reaches the output's end when checkBuffer comes to it. */
  ghost predicate FlushedAt(items: seq<Span>, init: WriterView, i: nat)
    requires i < |items|
  {
    var pushed := |Flush(items[..i], init).view.written|;
    items[i].start <= pushed < End(items[i])
  }

  /** checkBuffer only appends to the output. */
  lemma {:induction false} FlushGrows(items: seq<Span>, init: WriterView)
    ensures init.written <= Flush(items, init).view.written
    decreases |items|
  {
    if items != [] {
      FlushGrows(items[..|items| - 1], init);
    }
  }

  /** The three outcomes of one checkBuffer step, as far as the pending list and the closed flag go. */
  lemma FlushItemCases(r0: FlushResult, item: Span)
    ensures var r := FlushItem(r0, item);
            && (item.start > |r0.view.written| ==> r == FlushResult(r0.kept + [item], r0.view))
            && (item.start <= |r0.view.written| ==> r.kept == r0.kept && r0.view.written <= r.view.written)
            && (r.view.closed <==> r0.view.closed || (item.isLast && item.start <= |r0.view.written| < End(item)))
  {
  }

  /** The kept spans are a suffix of `items`, each starting strictly after the bytes pushed. */
  ghost predicate KeptSuffix(items: seq<Span>, r: FlushResult) {
    && |r.kept| <= |items|
    && r.kept == items[|items| - |r.kept|..]
    && forall k :: 0 <= k < |r.kept| ==> r.kept[k].start > |r.view.written|
  }

  /** A span beyond the bytes pushed is kept: it extends the kept suffix by one. */
  lemma KeptSuffixAppend(front: seq<Span>, item: Span, r0: FlushResult, r: FlushResult)
    requires KeptSuffix(front, r0)
    requires item.start > |r0.view.written| && r == FlushResult(r0.kept + [item], r0.view)
    ensures KeptSuffix(front + [item], r)
  {
    var items := front + [item];
    var m := |front| - |r0.kept|;
    assert items[m..] == front[m..] + [item];
    assert forall k :: 0 <= k < |r0.kept| ==> r.kept[k] == r0.kept[k];
  }

  /** No kept span can start at or before a position that the last span of the list starts before. */
  lemma NothingKept(front: seq<Span>, r0: FlushResult, p: nat)
    requires KeptSuffix(front, r0)
    requires front != [] ==> Last(front).start < p
    requires p <= |r0.view.written|
    ensures r0.kept == []
  {
  }

  lemma EmptyKept(items: seq<Span>, r: FlushResult)
    requires r.kept == []
    ensures KeptSuffix(items, r)
  {
  }

  /** A span that reaches the bytes pushed is consumed: nothing was kept before it, and nothing is now. */
  lemma KeptSuffixConsume(front: seq<Span>, item: Span, r0: FlushResult, r: FlushResult)
    requires KeptSuffix(front, r0)
    requires front != [] ==> End(Last(front)) < item.start
    requires item.start <= |r0.view.written| && r.kept == r0.kept
    ensures KeptSuffix(front + [item], r)
  {
    NothingKept(front, r0, item.start);
    EmptyKept(front + [item], r);
  }

  /** One step of FlushKeepsSuffix: appending a span that lies beyond the last one keeps the suffix shape. */
  lemma FlushKeepsSuffixStep(front: seq<Span>, item: Span, r0: FlushResult)
    requires KeptSuffix(front, r0)
    requires front != [] ==> End(Last(front)) < item.start
    ensures KeptSuffix(front + [item], FlushItem(r0, item))
  {
    FlushItemCases(r0, item);
    if item.start > |r0.view.written| {
      KeptSuffixAppend(front, item, r0, FlushItem(r0, item));
    } else {
      KeptSuffixConsume(front, item, r0, FlushItem(r0, item));
    }
  }

  /** Dropping the last span of a gapped list leaves it gapped, and the last span lies beyond the one before. */
  lemma GappedFront(items: seq<Span>)
    requires items != [] && Gapped(items)
    ensures Gapped(items[..|items| - 1])
    ensures |items| >= 2 ==> End(Last(items[..|items| - 1])) < Last(items).start
  {
    var front := items[..|items| - 1];
    forall i, j | 0 <= i < j < |front| ensures End(front[i]) < front[j].start {
      assert front[i] == items[i] && front[j] == items[j];
    }
  }

  lemma FlushUnfold(items: seq<Span>, init: WriterView)
    requires items != []
    ensures Flush(items, init) == FlushItem(Flush(items[..|items| - 1], init), Last(items))
    ensures items[..|items| - 1] + [Last(items)] == items
  {
  }

  /**
   * On a gapped list, checkBuffer keeps a suffix of the pending spans, and every kept span
   * starts strictly after the bytes pushed so far.
   */
  lemma {:induction false} FlushKeepsSuffix(items: seq<Span>, init: WriterView)
    requires Gapped(items)
    ensures KeptSuffix(items, Flush(items, init))
    decreases |items|
  {
    if items != [] {
      var front := items[..|items| - 1];
      GappedFront(items);
      FlushKeepsSuffix(front, init);
      FlushKeepsSuffixStep(front, Last(items), Flush(front, init));
      FlushUnfold(items, init);
    }
  }

  /**
   * Exactly once, in order: if the output so far is a prefix of the true stream and every
   * pending span is a slice of it, checkBuffer leaves the output a prefix of the true stream
   * and the kept spans slices of it.
   */
  lemma {:induction false} FlushExactlyOnce(items: seq<Span>, init: WriterView, t: seq<char>)
    requires init.written <= t && AllSlicesOf(t, items)
    ensures Flush(items, init).view.written <= t
    ensures AllSlicesOf(t, Flush(items, init).kept)
    decreases |items|
  {
    if items != [] {
      var front := items[..|items| - 1];
      assert AllSlicesOf(t, front) by {
        forall i | 0 <= i < |front| ensures SliceOf(t, front[i]) {
          assert front[i] == items[i];
        }
      }
      FlushExactlyOnce(front, init, t);
      FlushItemExactlyOnce(Flush(front, init), Last(items), t);
      FlushUnfold(items, init);
    }
  }

  /** Writing the unwritten suffix of a slice onto a prefix of the true stream leaves a prefix of it. */
  lemma PushSuffixOfSlice(v: WriterView, item: Span, t: seq<char>)
    requires v.written <= t && SliceOf(t, item)
    requires item.start <= |v.written| < End(item)
    ensures PushView(v, item.data[|v.written| - item.start..]).written <= t
  {
    var pushed := |v.written|;
    var rest := item.data[pushed - item.start..];
    assert rest == t[pushed..End(item)];
    var acc := Accepted(v.avail, rest);
    assert acc == t[pushed..pushed + |acc|];
    assert v.written == t[..pushed];
    assert v.written + acc == t[..pushed + |acc|];
  }

  /** One step of FlushExactlyOnce. */
  lemma FlushItemExactlyOnce(r0: FlushResult, item: Span, t: seq<char>)
    requires r0.view.written <= t && AllSlicesOf(t, r0.kept) && SliceOf(t, item)
    ensures FlushItem(r0, item).view.written <= t
    ensures AllSlicesOf(t, FlushItem(r0, item).kept)
  {
    var pushed := |r0.view.written|;
    if item.start <= pushed < End(item) {
      PushSuffixOfSlice(r0.view, item, t);
      if pushed == item.start {
        assert item.data[pushed - item.start..] == item.data;
      }
    }
    var r := FlushItem(r0, item);
    forall i | 0 <= i < |r.kept| ensures SliceOf(t, r.kept[i]) {
      if i < |r0.kept| {
        assert r.kept[i] == r0.kept[i];
      }
    }
  }

  /** The span at position `i` is flagged last and reaches the output's end when checkBuffer comes to it. */
  ghost predicate ClosedBy(items: seq<Span>, init: WriterView, i: nat)
    requires i < |items|
  {
    items[i].isLast && FlushedAt(items, init, i)
  }

  /** Positions before the last one close the output in `items` exactly when they do in its front. */
  lemma ClosedByFront(items: seq<Span>, init: WriterView, i: nat)
    requires i < |items| - 1
    ensures ClosedBy(items, init, i) <==> ClosedBy(items[..|items| - 1], init, i)
  {
    assert items[..|items| - 1][..i] == items[..i];
  }

  lemma ClosedByExists(items: seq<Span>, front: seq<Span>, init: WriterView)
    requires items != [] && front == items[..|items| - 1]
    ensures (exists i :: 0 <= i < |items| && ClosedBy(items, init, i)) <==>
              (exists i :: 0 <= i < |front| && ClosedBy(front, init, i)) || ClosedBy(items, init, |front|)
  {
    if i :| 0 <= i < |front| && ClosedBy(front, init, i) {
      ClosedByFront(items, init, i);
    }
    if i :| 0 <= i < |front| && ClosedBy(items, init, i) {
      ClosedByFront(items, init, i);
    }
  }

  lemma ClosedByLast(items: seq<Span>, init: WriterView)
    requires items != []
    ensures var pushed := |Flush(items[..|items| - 1], init).view.written|;
            ClosedBy(items, init, |items| - 1) <==> Last(items).isLast && Last(items).start <= pushed < End(Last(items))
  {
  }

  /** checkBuffer closes the output exactly when it was closed or it flushed a span flagged last. */
  lemma {:induction false} FlushCloses(items: seq<Span>, init: WriterView)
    ensures Flush(items, init).view.closed <==>
              init.closed || exists i :: 0 <= i < |items| && ClosedBy(items, init, i)
    decreases |items|
  {
    if items != [] {
      var front := items[..|items| - 1];
      FlushCloses(front, init);
      FlushItemCases(Flush(front, init), Last(items));
      FlushUnfold(items, init);
      ClosedByLast(items, init);
      ClosedByExists(items, front, init);
    }
  }

  // ---------------------------------------------------------------------------------------
  // insert, as a function of the pending list and the output's producer view

  /** The pending list and output after Reassembler::insert. */
  function InsertSpec(pending: seq<Span>, v: WriterView, first: nat, data: seq<char>, isLast: bool): FlushResult {
    var remain := v.avail;
    var pushed := |v.written|;
    if data == [] && isLast then FlushResult(pending, v.(closed := true))
    else if remain == 0 || first >= pushed + remain || pushed >= first + |data| then FlushResult(pending, v)
    else if first > pushed then FlushResult(Stash(pending, Span(first, data, isLast)), v)
    else
      var r := Flush(pending, PushView(v, data[pushed - first..]));
      if isLast then r.(view := r.view.(closed := true)) else r
  }

  /** insert keeps the pending list sorted and strictly gapped. */
  lemma InsertKeepsGapped(pending: seq<Span>, v: WriterView, first: nat, data: seq<char>, isLast: bool)
    requires Gapped(pending)
    ensures Gapped(InsertSpec(pending, v, first, data, isLast).kept)
  {
    StashGapped(pending, Span(first, data, isLast));
    if first <= |v.written| < first + |data| {
      FlushKeepsSuffix(pending, PushView(v, data[|v.written| - first..]));
    }
  }

  /**
   * Exactly once, in order: when the output so far is a prefix of the true stream, the pending
   * spans and the inserted substring are slices of it, insert only appends to the output and
   * leaves it a prefix of the true stream; bytes already written are never written again.
   */
  lemma InsertExactlyOnce(pending: seq<Span>, v: WriterView, first: nat, data: seq<char>, isLast: bool, t: seq<char>)
    requires v.written <= t && AllSlicesOf(t, pending) && SliceOf(t, Span(first, data, isLast))
    ensures var r := InsertSpec(pending, v, first, data, isLast);
            v.written <= r.view.written <= t && AllSlicesOf(t, r.kept)
  {
    var pushed := |v.written|;
    var remain := v.avail;
    if data == [] && isLast {
    } else if remain == 0 || first >= pushed + remain || pushed >= first + |data| {
    } else if first > pushed {
      StashSlices(pending, Span(first, data, isLast), t);
    } else {
      var rest := data[pushed - first..];
      assert rest == t[pushed..first + |data|];
      var acc := Accepted(remain, rest);
      assert acc == t[pushed..pushed + |acc|];
      assert v.written == t[..pushed];
      assert v.written + acc == t[..pushed + |acc|];
      var v1 := PushView(v, rest);
      FlushExactlyOnce(pending, v1, t);
      FlushGrows(pending, v1);
    }
  }

  /** A substring that reaches the output's end while there is room always delivers at least one new byte. */
  lemma InsertDelivers(pending: seq<Span>, v: WriterView, first: nat, data: seq<char>, isLast: bool)
    requires v.avail > 0 && first <= |v.written| < first + |data|
    ensures |InsertSpec(pending, v, first, data, isLast).view.written| > |v.written|
  {
    var v1 := PushView(v, data[|v.written| - first..]);
    FlushGrows(pending, v1);
  }

  /**
   * A substring strictly ahead of the output's end and inside the window leaves the output
   * untouched, and afterwards the pending list holds exactly the old indices and its own.
   */
  lemma InsertFutureStashes(pending: seq<Span>, v: WriterView, first: nat, data: seq<char>, isLast: bool, p: nat)
    requires Gapped(pending)
    requires |v.written| < first < |v.written| + v.avail
    requires data != []
    ensures InsertSpec(pending, v, first, data, isLast).view == v
    ensures Covers(InsertSpec(pending, v, first, data, isLast).kept, p) <==> Covers(pending, p) || first <= p < first + |data|
  {
    StashCovers(pending, Span(first, data, isLast), p);
  }

  /** A stashed substring is stored whole, even where it runs past the output's free capacity. */
  lemma FutureSpanUnclipped()
    ensures InsertSpec([], WriterView([], 2, false), 1, "abcdef", false).kept == [Span(1, "abcdef", false)]
  {
  }

  /** Two overlapping substrings from index 0 ("ab", then "abcd") give "abcd" and nothing pending. */
  lemma OverlapMergeScenario()
    ensures var r1 := InsertSpec([], WriterView([], 10, false), 0, "ab", false);
            var r2 := InsertSpec(r1.kept, r1.view, 0, "abcd", false);
            r2.view.written == "abcd" && r2.kept == []
  {
    var r1 := InsertSpec([], WriterView([], 10, false), 0, "ab", false);
    assert r1.view.written == "ab";
    assert "abcd"[2..] == "cd";
  }

  // ---------------------------------------------------------------------------------------
  // bytes_pending

  /** The total length of the spans' bytes. */
  function TotalLength(spans: seq<Span>): nat
    decreases |spans|
  {
    if spans == [] then 0 else TotalLength(spans[..|spans| - 1]) + |Last(spans).data|
  }

  /** No pending bytes exactly when no stream index is held. */
  lemma {:induction false} NoPendingIffNothingCovered(spans: seq<Span>)
    ensures TotalLength(spans) == 0 <==> forall p: nat :: !Covers(spans, p)
    decreases |spans|
  {
    if spans != [] {
      var front := spans[..|spans| - 1];
      var s := Last(spans);
      assert spans == front + [s];
      NoPendingIffNothingCovered(front);
      if TotalLength(spans) == 0 {
        forall p: nat ensures !Covers(spans, p) {
          CoversAppend(front, [s], p);
          CoversSingle(s, p);
        }
      } else if |s.data| > 0 {
        CoversAppend(front, [s], s.start);
        CoversSingle(s, s.start);
      } else {
        var p: nat :| Covers(front, p);
        CoversAppend(front, [s], p);
      }
    }
  }

  lemma MergeSnoc(items: seq<Span>, i: nat)
    requires i < |items|
    ensures Merge(items[..i + 1]) == MergeStep(Merge(items[..i]), items[i])
  {
    assert items[..i + 1][..i] == items[..i];
  }

  /** The merge pass of insertToBuffer over the sorted list `items`, building the new pending list. */
  method MergeIntervals(items: seq<Span>) returns (merged: seq<Span>)
    ensures merged == Merge(items)
  {
    merged := [];
    var i := 0;
    while i < |items|
      invariant i <= |items|
      invariant merged == Merge(items[..i])
    {
      var item := items[i];
      MergeSnoc(items, i);
      ghost var before := merged;
      var n := |merged|;
      if merged == [] || End(merged[n - 1]) < item.start {
        merged := merged + [item];
      } else {
        var last := merged[n - 1];
        if End(item) > End(last) {
          if End(last) >= item.start {
            last := last.(data := last.data + item.data[End(last) - item.start..]);
          }
          if item.isLast {
            last := last.(isLast := item.isLast);
          }
          assert merged[n - 1 := last] == merged[..n - 1] + [last];
          merged := merged[n - 1 := last];
        }
      }
      assert merged == MergeStep(before, item);
      i := i + 1;
    }
    assert items[..|items|] == items;
  }

  /** The body of the checkBuffer loop for one span: drop it, write its unwritten suffix, or keep it. */
  method FlushSpan(item: Span, kept: seq<Span>, output: ByteStream) returns (newKept: seq<Span>)
    requires output.Valid()
    modifies output
    ensures output.Valid()
    ensures FlushResult(newKept, output.View()) == FlushItem(FlushResult(kept, old(output.View())), item)
    ensures output.poppedCount == old(output.poppedCount) && output.error == old(output.error)
  {
    newKept := kept;
    var pushed := output.BytesPushed();
    if End(item) <= pushed {
    } else if item.start < pushed && pushed < End(item) {
      output.Push(item.data[pushed - item.start..]);
      if item.isLast {
        output.Close();
      }
    } else if pushed == item.start {
      output.Push(item.data);
      if item.isLast {
        output.Close();
      }
    } else {
      newKept := kept + [item];
    }
  }

  class Reassembler {
    var pending: seq<Span>

    ghost predicate Valid()
      reads this
    {
      Gapped(pending)
    }

    constructor ()
      ensures Valid() && pending == []
    {
      pending := [];
    }

    /** Reassembler::bytes_pending: the number of bytes held in pending spans. */
    method BytesPending() returns (n: nat)
      ensures n == TotalLength(pending)
    {
      n := 0;
      var i := 0;
      while i < |pending|
        invariant i <= |pending|
        invariant n == TotalLength(pending[..i])
      {
        assert pending[..i + 1][..i] == pending[..i];
        n := n + |pending[i].data|;
        i := i + 1;
      }
      assert pending[..|pending|] == pending;
    }

    /** The scan of insertToBuffer: the first position whose span the new one belongs before. */
    method FindInsertPos(first: nat, len: nat) returns (idx: nat)
      ensures idx == InsertPos(pending, first, len)
    {
      idx := 0;
      while idx < |pending|
        invariant idx <= |pending|
        invariant forall j :: 0 <= j < idx ==> !Before(first, len, pending[j])
      {
        if first < pending[idx].start {
          break;
        }
        if first == pending[idx].start && len < |pending[idx].data| {
          break;
        }
        idx := idx + 1;
      }
    }

    /** Reassembler::insertToBuffer: sorted insertion, then one pass that merges overlapping or abutting spans. */
    method InsertToBuffer(first: nat, data: seq<char>, isLast: bool)
      modifies this
      ensures pending == Stash(old(pending), Span(first, data, isLast))
    {
      var span := Span(first, data, isLast);
      if pending == [] {
        pending := [span];
        return;
      }
      var idx := FindInsertPos(first, |data|);
      var items := pending[..idx] + [span] + pending[idx..];
      assert items == InsertAt(pending, idx, span);
      pending := MergeIntervals(items);
    }

    /** Reassembler::checkBuffer: flushes, in start order, the pending spans that reach the output's end. */
    method CheckBuffer(output: ByteStream)
      requires output.Valid()
      modifies this, output
      ensures output.Valid()
      ensures Flush(old(pending), old(output.View())) == FlushResult(pending, output.View())
      ensures output.poppedCount == old(output.poppedCount) && output.error == old(output.error)
    {
      var items := pending;
      ghost var init := output.View();
      var kept: seq<Span> := [];
      var i := 0;
      while i < |items|
        invariant i <= |items| && output.Valid()
        invariant Flush(items[..i], init) == FlushResult(kept, output.View())
        invariant output.poppedCount == old(output.poppedCount) && output.error == old(output.error)
      {
        FlushSnoc(items, init, i);
        kept := FlushSpan(items[i], kept, output);
        i := i + 1;
      }
      assert items[..|items|] == items;
      pending := kept;
    }

    /** Reassembler::insert. */
    method Insert(first: nat, data: seq<char>, isLast: bool, output: ByteStream)
      requires Valid() && output.Valid()
      modifies this, output
      ensures Valid() && output.Valid()
      ensures InsertSpec(old(pending), old(output.View()), first, data, isLast) == FlushResult(pending, output.View())
      ensures output.poppedCount == old(output.poppedCount) && output.error == old(output.error)
    {
      InsertKeepsGapped(pending, output.View(), first, data, isLast);
      if |data| == 0 {
        if isLast {
          output.Close();
          return;
        }
      }
      var remain := output.AvailableCapacity();
      var pushed := output.BytesPushed();
      if remain == 0 || first >= pushed + remain || pushed >= first + |data| {
        return;
      }
      if first > pushed {
        InsertToBuffer(first, data, isLast);
        return;
      }
      if first < pushed && pushed < first + |data| {
        output.Push(data[pushed - first..]);
      }
      if pushed == first {
        output.Push(data);
      }
      CheckBuffer(output);
      if isLast {
        output.Close();
      }
    }
  }
}
