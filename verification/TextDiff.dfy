/** Text edits of one code point per node, and the operations a text diff turns into. */
module TextDiffs {
  import opened Uids
  import opened Rga
  import opened Shape
  import opened LocalEdits

  // ----- text of one code point per node -----

  predicate OneCharEach(d: Doc) {
    forall i :: 0 <= i < |d| && !d[i].tombstoned ==> |d[i].value| == 1
  }

  /** With one code point per node, the text is the visible nodes read off one by one. */
  function Spelled(live: Doc): string
    requires forall i :: 0 <= i < |live| ==> |live[i].value| == 1
  {
    seq(|live|, i requires 0 <= i < |live| => live[i].value[0])
  }

  lemma {:induction false} TextIsSpelled(d: Doc)
    requires OneCharEach(d)
    ensures forall i :: 0 <= i < |Live(d)| ==> |Live(d)[i].value| == 1
    ensures Text(d) == Spelled(Live(d))
  {
    if d != [] {
      TextIsSpelled(d[1..]);
    }
  }

  /** A well-formed list within the clock whose visible nodes spell `text`, one code point each. */
  ghost predicate Shows(d: Doc, clock: nat, text: string) {
    WellFormed(d) && ClocksBounded(d, clock) && OneCharEach(d) && Text(d) == text
  }

  lemma ShownLength(d: Doc, clock: nat, text: string)
    requires Shows(d, clock, text)
    ensures |Live(d)| == |text|
  {
    TextIsSpelled(d);
  }

  // ----- one character -----

  lemma SpelledInsert(live: Doc, index: nat, e: Element)
    requires index <= |live| && |e.value| == 1 && forall i :: 0 <= i < |live| ==> |live[i].value| == 1
    ensures var live' := live[..index] + [e] + live[index..];
      && (forall i :: 0 <= i < |live'| ==> |live'[i].value| == 1)
      && Spelled(live') == InsertAt(Spelled(live), index, e.value[0])
  {
  }

  lemma SpelledRemove(live: Doc, index: nat)
    requires index < |live| && forall i :: 0 <= i < |live| ==> |live[i].value| == 1
    ensures var live' := live[..index] + live[index + 1..];
      && (forall i :: 0 <= i < |live'| ==> |live'[i].value| == 1)
      && Spelled(live') == RemoveAt(Spelled(live), index)
  {
  }

  lemma InsertKeepsList(d: Doc, clock: nat, p: nat, e: Element)
    requires WellFormed(d) && ClocksBounded(d, clock) && OneCharEach(d) && p <= |d|
    requires |e.value| == 1 && !Known(d, e.uid) && e.uid.clock == clock + 1
    ensures var d' := InsertAt(d, p, e); WellFormed(d') && ClocksBounded(d', clock + 1) && OneCharEach(d')
  {
  }

  /** Typing one character at an index puts it there. */
  lemma TypedOne(d: Doc, clock: nat, siteId: string, text: string, index: nat, c: char)
    requires Shows(d, clock, text) && index <= |text|
    ensures Shows(Step(d, LocalInsertOp(d, clock, siteId, index, [c])), clock + 1, InsertAt(text, index, c))
  {
    ShownLength(d, clock, text);
    var e := Element(UID(clock + 1, siteId), [c], false);
    TickedUidIsAbove(d, clock, siteId);
    var p := LocalInsertLands(d, clock, siteId, index, [c]);
    var d' := InsertAt(d, p, e);
    InsertKeepsList(d, clock, p, e);
    LiveOfInsert(d, p, e);
    LiveOfOne(e);
    TextIsSpelled(d);
    TextIsSpelled(d');
    SpelledInsert(Live(d), index, e);
  }

  /** Deleting one visible position removes that character. */
  lemma ErasedOne(d: Doc, clock: nat, text: string, index: nat)
    requires Shows(d, clock, text) && index < |text|
    ensures LocalDeleteOp(d, index).Some?
    ensures Shows(Step(d, LocalDeleteOp(d, index).value), clock, RemoveAt(text, index))
  {
    ShownLength(d, clock, text);
    LocalDeleteMeaning(d, index);
    var d' := Step(d, LocalDeleteOp(d, index).value);
    TextIsSpelled(d);
    TextIsSpelled(d');
    SpelledRemove(Live(d), index);
  }

  // ----- the two ends a diff keeps -----

  predicate EndsAgree(a: string, b: string, n: nat) {
    n <= |a| && n <= |b| && a[|a| - n..] == b[|b| - n..]
  }

  lemma EndsAgreeFurther(a: string, b: string, n: nat)
    requires EndsAgree(a, b, n) && n < |a| && n < |b| && a[|a| - n - 1] == b[|b| - n - 1]
    ensures EndsAgree(a, b, n + 1)
  {
  }

  /** `p` characters agree at the front, and no more. */
  ghost predicate IsCommonPrefix(a: string, b: string, p: nat) {
    && p <= |a| && p <= |b| && a[..p] == b[..p]
    && (p < |a| && p < |b| ==> a[p] != b[p])
  }

  /** `n` characters agree at the end, leaving the first `p` alone, and no more. */
  ghost predicate IsCommonSuffix(a: string, b: string, p: nat, n: nat) {
    && p + n <= |a| && p + n <= |b| && EndsAgree(a, b, n)
    && (p + n < |a| && p + n < |b| ==> a[|a| - n - 1] != b[|b| - n - 1])
  }

  // ----- the operations a diff emits -----

  /** A client in the middle of an edit: its list, its clock and the operations emitted so far. */
  datatype Editing = Editing(doc: Doc, clock: nat, ops: seq<Op>)

  function EraseAt(s: Editing, index: int): Editing {
    match LocalDeleteOp(s.doc, index)
    case None => s
    case Some(op) => Editing(Step(s.doc, op), s.clock, s.ops + [op])
  }

  function TypeAt(s: Editing, siteId: string, index: int, c: char): Editing {
    var op := LocalInsertOp(s.doc, s.clock, siteId, index, [c]);
    Editing(Step(s.doc, op), s.clock + 1, s.ops + [op])
  }

  /** Deletes the visible positions `hi - 1` down to `k`. */
  function Erase(s: Editing, hi: nat, k: nat): Editing
    decreases hi - k
  {
    if k >= hi then s else EraseAt(Erase(s, hi, k + 1), k)
  }

  /** Types `chars[lo..k]`, each at its own index. */
  function Type(s: Editing, siteId: string, chars: string, lo: nat, k: nat): Editing
    requires lo <= k <= |chars|
  {
    if k == lo then s else TypeAt(Type(s, siteId, chars, lo, k - 1), siteId, k - 1, chars[k - 1])
  }

  lemma TypeNextIs(s: Editing, siteId: string, chars: string, lo: nat, k: nat)
    requires lo <= k < |chars|
    ensures Type(s, siteId, chars, lo, k + 1) == TypeAt(Type(s, siteId, chars, lo, k), siteId, k, chars[k])
  {
  }

  /** The operations emitted account for the list: replaying them anywhere gives the same list. */
  ghost predicate Accounted(d: Doc, s: Editing) {
    s.doc == Replay(d, s.ops)
  }

  lemma {:induction false} EraseAccounted(d: Doc, s: Editing, hi: nat, k: nat)
    requires Accounted(d, s)
    ensures Accounted(d, Erase(s, hi, k))
    decreases hi - k
  {
    if k < hi {
      EraseAccounted(d, s, hi, k + 1);
      var before := Erase(s, hi, k + 1);
      if LocalDeleteOp(before.doc, k).Some? {
        ReplayOne(d, before.ops, LocalDeleteOp(before.doc, k).value);
      }
    }
  }

  lemma {:induction false} TypeAccounted(d: Doc, s: Editing, siteId: string, chars: string, lo: nat, k: nat)
    requires Accounted(d, s) && lo <= k <= |chars|
    ensures Accounted(d, Type(s, siteId, chars, lo, k))
  {
    if k > lo {
      TypeAccounted(d, s, siteId, chars, lo, k - 1);
      var before := Type(s, siteId, chars, lo, k - 1);
      ReplayOne(d, before.ops, LocalInsertOp(before.doc, before.clock, siteId, k - 1, [chars[k - 1]]));
    }
  }

  /** Erasing emits DELETEs and leaves the clock where it is. */
  lemma {:induction false} EraseEmits(s: Editing, hi: nat, k: nat)
    ensures var s' := Erase(s, hi, k);
      s'.clock == s.clock && s.ops <= s'.ops && forall i :: |s.ops| <= i < |s'.ops| ==> s'.ops[i].Delete?
    decreases hi - k
  {
    if k < hi {
      EraseEmits(s, hi, k + 1);
    }
  }

  /** The `i`-th operation behind those of `s` types the `i`-th character under the `i`-th clock behind that of `s`. */
  predicate TypesAt(s: Editing, ops: seq<Op>, siteId: string, chars: string, i: nat)
    requires |s.ops| + i < |ops| && i < |chars|
  {
    var op := ops[|s.ops| + i];
    op.Insert? && op.uid == UID(s.clock + 1 + i, siteId) && op.value == [chars[i]]
  }

  /** Behind `s`, the first `n` characters have been typed, each by one INSERT under the next clock of the site. */
  ghost predicate Emitted(s: Editing, t: Editing, siteId: string, chars: string, n: nat) {
    && n <= |chars| && t.clock == s.clock + n && s.ops <= t.ops && |t.ops| == |s.ops| + n
    && forall i :: 0 <= i < n ==> TypesAt(s, t.ops, siteId, chars, i)
  }

  lemma EmitsNext(s: Editing, t: Editing, siteId: string, chars: string, n: nat, index: int)
    requires Emitted(s, t, siteId, chars, n) && n < |chars|
    ensures Emitted(s, TypeAt(t, siteId, index, chars[n]), siteId, chars, n + 1)
  {
    var t' := TypeAt(t, siteId, index, chars[n]);
    forall i | 0 <= i < n + 1
      ensures TypesAt(s, t'.ops, siteId, chars, i)
    {
      assert i < n ==> TypesAt(s, t.ops, siteId, chars, i);
    }
  }

  lemma EmitsStep(s: Editing, t: Editing, siteId: string, chars: string, lo: nat, k: nat)
    requires lo < k <= |chars| && Emitted(s, t, siteId, chars[lo..], k - 1 - lo)
    ensures Emitted(s, TypeAt(t, siteId, k - 1, chars[k - 1]), siteId, chars[lo..], k - lo)
  {
    EmitsNext(s, t, siteId, chars[lo..], k - 1 - lo, k - 1);
  }

  /** Typing emits one INSERT per character, in order, under consecutive clocks of the site. */
  lemma {:induction false} TypeEmits(s: Editing, siteId: string, chars: string, lo: nat, k: nat) returns (t: Editing)
    requires lo <= k <= |chars|
    ensures t == Type(s, siteId, chars, lo, k) && Emitted(s, t, siteId, chars[lo..], k - lo)
  {
    if k == lo {
      t := s;
    } else {
      var before := TypeEmits(s, siteId, chars, lo, k - 1);
      EmitsStep(s, before, siteId, chars, lo, k);
      t := TypeAt(before, siteId, k - 1, chars[k - 1]);
    }
  }

  lemma {:induction false} EraseKeepsClock(s: Editing, hi: nat, k: nat, start: nat)
    requires ClockIs(s.doc, s.clock, start)
    ensures ClockIs(Erase(s, hi, k).doc, Erase(s, hi, k).clock, start)
    decreases hi - k
  {
    if k < hi {
      var before := Erase(s, hi, k + 1);
      EraseKeepsClock(s, hi, k + 1, start);
      var op := LocalDeleteOp(before.doc, k);
      if op.Some? {
        ClockFollows(before.doc, before.clock, op.value, start);
        ClientApplyIsStep(before.doc, op.value);
      }
    }
  }

  lemma {:induction false} TypeKeepsClock(s: Editing, siteId: string, chars: string, lo: nat, k: nat, start: nat)
    requires lo <= k <= |chars| && ClockIs(s.doc, s.clock, start)
    ensures ClockIs(Type(s, siteId, chars, lo, k).doc, Type(s, siteId, chars, lo, k).clock, start)
  {
    if k > lo {
      var before := Type(s, siteId, chars, lo, k - 1);
      TypeKeepsClock(s, siteId, chars, lo, k - 1, start);
      ClockTicks(before.doc, before.clock, siteId, k - 1, [chars[k - 1]], start);
    }
  }

  /** The text after those deletes. */
  ghost function ErasedString(text: string, hi: nat, k: nat): (r: string)
    requires k <= hi <= |text|
    ensures |r| == |text| - (hi - k)
    decreases hi - k
  {
    if k == hi then text else RemoveAt(ErasedString(text, hi, k + 1), k)
  }

  /** The text after those inserts. */
  ghost function TypedString(text: string, chars: string, lo: nat, k: nat): (r: string)
    requires lo <= k <= |chars| && lo <= |text|
    ensures |r| == |text| + k - lo
  {
    if k == lo then text else InsertAt(TypedString(text, chars, lo, k - 1), k - 1, chars[k - 1])
  }

  /** The text a client shows in the middle of an edit, and how many operations it has emitted. */
  ghost predicate Displays(s: Editing, text: string, n: nat) {
    Shows(s.doc, s.clock, text) && |s.ops| == n
  }

  lemma EraseAtShows(s: Editing, text: string, index: nat, n: nat)
    requires Displays(s, text, n) && index < |text|
    ensures Displays(EraseAt(s, index), RemoveAt(text, index), n + 1)
  {
    ErasedOne(s.doc, s.clock, text, index);
  }

  lemma {:induction false} EraseShows(s: Editing, text: string, hi: nat, k: nat, n: nat)
    requires Displays(s, text, n) && k <= hi <= |text|
    ensures Displays(Erase(s, hi, k), ErasedString(text, hi, k), n + hi - k)
    decreases hi - k
  {
    if k < hi {
      EraseShows(s, text, hi, k + 1, n);
      EraseAtShows(Erase(s, hi, k + 1), ErasedString(text, hi, k + 1), k, n + hi - k - 1);
    }
  }

  lemma TypeAtShows(s: Editing, siteId: string, text: string, index: nat, c: char, n: nat)
    requires Displays(s, text, n) && index <= |text|
    ensures Displays(TypeAt(s, siteId, index, c), InsertAt(text, index, c), n + 1)
  {
    TypedOne(s.doc, s.clock, siteId, text, index, c);
  }

  lemma {:induction false} TypeShows(s: Editing, siteId: string, text: string, chars: string, lo: nat, k: nat, n: nat)
    requires Displays(s, text, n) && lo <= k <= |chars| && lo <= |text|
    ensures Displays(Type(s, siteId, chars, lo, k), TypedString(text, chars, lo, k), n + k - lo)
  {
    if k > lo {
      TypeShows(s, siteId, text, chars, lo, k - 1, n);
      TypeAtShows(Type(s, siteId, chars, lo, k - 1), siteId, TypedString(text, chars, lo, k - 1),
                  k - 1, chars[k - 1], n + k - 1 - lo);
    }
  }

  lemma {:induction false} ErasedStringIs(text: string, hi: nat, k: nat)
    requires k <= hi <= |text|
    ensures ErasedString(text, hi, k) == text[..k] + text[hi..]
    decreases hi - k
  {
    if k < hi {
      ErasedStringIs(text, hi, k + 1);
    }
  }

  lemma {:induction false} TypedStringIs(text: string, chars: string, lo: nat, k: nat)
    requires lo <= k <= |chars| && lo <= |text|
    ensures TypedString(text, chars, lo, k) == text[..lo] + chars[lo..k] + text[lo..]
  {
    if k > lo {
      TypedStringIs(text, chars, lo, k - 1);
      assert chars[lo..k] == chars[lo..k - 1] + [chars[k - 1]];
    }
  }

  /** Cutting the middle out of `before` and typing the middle of `after` gives `after`. */
  lemma EndsMeet(before: string, after: string, p: nat, hi: nat, k: nat)
    requires p <= hi <= |before| && p <= k <= |after| && before[..p] == after[..p]
    requires |before| - hi == |after| - k && EndsAgree(before, after, |before| - hi)
    ensures TypedString(ErasedString(before, hi, p), after, p, k) == after
  {
    ErasedStringIs(before, hi, p);
    var head, tail := before[..p], before[hi..];
    assert tail == after[k..];
    TypedStringIs(head + tail, after, p, k);
    Joined(head, tail);
    Rejoined(after, p, k);
  }

  lemma Joined<T>(a: seq<T>, b: seq<T>)
    ensures (a + b)[..|a|] == a && (a + b)[|a|..] == b
  {
  }

  lemma Rejoined<T>(s: seq<T>, i: nat, j: nat)
    requires i <= j <= |s|
    ensures s[..i] + s[i..j] + s[j..] == s
  {
  }

  /** The ends `CommonEnds` found meet: cutting and typing between them turns `before` into `after`. */
  ghost predicate Meets(before: string, after: string, p: nat, hi: nat, k: nat) {
    && p <= hi <= |before| && p <= k <= |after|
    && TypedString(ErasedString(before, hi, p), after, p, k) == after
  }

  lemma FoundEndsMeet(before: string, after: string, p: nat, bi: int, ai: int)
    requires p - 1 <= bi < |before| && p - 1 <= ai < |after| && before[..p] == after[..p]
    requires |before| - bi == |after| - ai && EndsAgree(before, after, |before| - 1 - bi)
    ensures Meets(before, after, p, bi + 1, ai + 1)
  {
    EndsMeet(before, after, p, bi + 1, ai + 1);
  }

  /** Erasing the middle of `before` and typing the middle of `after` turns one text into the other. */
  lemma DiffText(s: Editing, siteId: string, before: string, after: string, p: nat, hi: nat, k: nat)
    requires Displays(s, before, 0) && Meets(before, after, p, hi, k)
    ensures Displays(Type(Erase(s, hi, p), siteId, after, p, k), after, (hi - p) + (k - p))
  {
    EraseShows(s, before, hi, p, 0);
    TypeShows(Erase(s, hi, p), siteId, ErasedString(before, hi, p), after, p, k, hi - p);
  }

  /** What a whole diff leaves behind: accounted operations, and the new text if the old one was shown. */
  lemma DiffIsCorrect(d: Doc, clock: nat, siteId: string, before: string, after: string, p: nat, hi: nat, k: nat)
    requires WellFormed(d) && ClocksBounded(d, clock) && Meets(before, after, p, hi, k)
    ensures var s' := Type(Erase(Editing(d, clock, []), hi, p), siteId, after, p, k);
      && Accounted(d, s')
      && (OneCharEach(d) && Text(d) == before ==>
        OneCharEach(s'.doc) && Text(s'.doc) == after && |s'.ops| == (hi - p) + (k - p))
  {
    var start := Editing(d, clock, []);
    var erased := Erase(start, hi, p);
    EraseAccounted(d, start, hi, p);
    TypeAccounted(d, erased, siteId, after, p, k);
    if Shows(d, clock, before) {
      DiffText(start, siteId, before, after, p, hi, k);
    }
  }

  /** The clock behind a whole diff is again the largest one seen. */
  lemma DiffKeepsClock(d: Doc, clock: nat, siteId: string, after: string, p: nat, hi: nat, k: nat, start: nat)
    requires p <= hi && p <= k <= |after| && ClockIs(d, clock, start)
    ensures var s' := Type(Erase(Editing(d, clock, []), hi, p), siteId, after, p, k);
      ClockIs(s'.doc, s'.clock, start)
  {
    EraseKeepsClock(Editing(d, clock, []), hi, p, start);
    TypeKeepsClock(Erase(Editing(d, clock, []), hi, p), siteId, after, p, k, start);
  }
}
