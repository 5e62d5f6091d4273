/** Building one contiguous edit from an old and a new text, for incremental reparsing.
    Text is bytes; slicing a text inside a UTF-8 character panics. The changed ratio is a
    real number. */
module EditBuilder {
  import opened Lexer
  import opened Graph
  import opened Utf8

  const FULL_REPARSE_LINE_LIMIT: nat := 500

  datatype Point = Point(row: nat, col: nat)

  datatype FileEdit = FileEdit(
    startByte: nat, oldEndByte: nat, newEndByte: nat, startPoint: Point, oldEndPoint: Point, newEndPoint: Point,
    newSource: seq<byte>)

  datatype Outcome = NoEdit | Built(edit: FileEdit) | Panic

  // ----- points -------------------------------------------------------------------------

  /** The newlines before offset k. */
  function RowOf(s: seq<byte>, k: nat): nat
    requires k <= |s|
  {
    if k == 0 then 0 else RowOf(s, k - 1) + if s[k-1] == NL then 1 else 0
  }

  /** One past the last newline before offset k. */
  function LineStart(s: seq<byte>, k: nat): (r: nat)
    requires k <= |s|
    ensures r <= k
  {
    if k == 0 then 0 else if s[k-1] == NL then k else LineStart(s, k - 1)
  }

  function ByteToPoint(s: seq<byte>, offset: nat): Point
  {
    var k := if offset < |s| then offset else |s|;
    Point(RowOf(s, k), k - LineStart(s, k))
  }

  predicate Precedes(a: Point, b: Point) { a.row < b.row || (a.row == b.row && a.col < b.col) }

  /** Where the line `row` lines below the one at i starts. */
  function RowBegins(s: seq<byte>, i: nat, row: nat): nat
    requires i <= |s|
    decreases |s| - i
  {
    if row == 0 || i == |s| then i else RowBegins(s, i + 1, if s[i] == NL then row - 1 else row)
  }

  function PointToByte(s: seq<byte>, p: Point): nat { RowBegins(s, 0, p.row) + p.col }

  lemma {:induction false} RowsGrow(s: seq<byte>, k: nat, l: nat)
    requires k <= l <= |s|
    ensures RowOf(s, k) <= RowOf(s, l) && LineStart(s, k) <= LineStart(s, l)
    ensures RowOf(s, k) == RowOf(s, l) ==> LineStart(s, k) == LineStart(s, l)
    ensures RowOf(s, k) < RowOf(s, l) ==> k < LineStart(s, l)
    decreases l
  {
    if k < l { RowsGrow(s, k, l - 1); }
  }

  /** Offsets and points are ordered alike. */
  lemma PointsAreMonotone(s: seq<byte>, k: nat, l: nat)
    requires k < l <= |s|
    ensures Precedes(ByteToPoint(s, k), ByteToPoint(s, l))
  {
    RowsGrow(s, k, l);
  }

  lemma {:induction false} RowBeginsAt(s: seq<byte>, i: nat, k: nat)
    requires i <= k <= |s|
    ensures RowOf(s, i) <= RowOf(s, k)
    ensures RowBegins(s, i, RowOf(s, k) - RowOf(s, i)) == if RowOf(s, k) == RowOf(s, i) then i else LineStart(s, k)
    decreases k - i
  {
    RowsGrow(s, i, k);
    if i < k {
      RowBeginsAt(s, i + 1, k);
      if RowOf(s, k) == RowOf(s, i + 1) > RowOf(s, i) { RowsGrow(s, i + 1, k); }
    }
  }

  /** Every offset can be read back from its point. */
  lemma PointRoundTrip(s: seq<byte>, k: nat)
    requires k <= |s|
    ensures PointToByte(s, ByteToPoint(s, k)) == k
  {
    RowBeginsAt(s, 0, k);
    RowsGrow(s, 0, k);
  }

  lemma {:induction false} SamePrefixSamePoint(a: seq<byte>, b: seq<byte>, k: nat)
    requires k <= |a| && k <= |b| && a[..k] == b[..k]
    ensures ByteToPoint(a, k) == ByteToPoint(b, k)
    decreases k
  {
    if k > 0 {
      assert a[..k-1] == a[..k][..k-1] && a[k-1] == a[..k][k-1];
      SamePrefixSamePoint(a, b, k - 1);
    }
  }

  // ----- the edit -----------------------------------------------------------------------

  function FirstDiff(a: seq<byte>, b: seq<byte>, i: nat): nat
    decreases |a| - i
  {
    if i < |a| && i < |b| && a[i] == b[i] then FirstDiff(a, b, i + 1) else i
  }

  /** The first mismatch counted from the ends, if it comes before one text is used up. */
  function FirstDiffBack(a: seq<byte>, b: seq<byte>, k: nat): Option<nat>
    decreases |a| - k
  {
    if k >= |a| || k >= |b| then None
    else if a[|a|-1-k] != b[|b|-1-k] then Some(k)
    else FirstDiffBack(a, b, k + 1)
  }

  function StartByte(before: seq<byte>, after: seq<byte>): nat { FirstDiff(before, after, 0) }

  /** Falls back to 0 when one remainder is a suffix of the other. */
  function CommonSuffix(before: seq<byte>, after: seq<byte>): nat
  {
    var start := StartByte(before, after);
    if start > |before| || start > |after| then 0
    else match FirstDiffBack(before[start..], after[start..], 0)
      case Some(k) => k
      case None => 0
  }

  predicate Boundary(s: seq<byte>, k: nat)
  {
    k == 0 || k == |s| || (k < |s| && !Tail(s[k]))
  }

  function Max(a: nat, b: nat): nat { if a < b then b else a }

  function Monus(a: nat, b: nat): nat { if a < b then 0 else a - b }

  function ChangedRatio(before: seq<byte>, start: nat, oldEnd: nat): real
  {
    Monus(oldEnd, start) as real / Max(|before|, 1) as real
  }

  function ChangedLines(edit: FileEdit): nat
  {
    Max(Monus(edit.oldEndPoint.row, edit.startPoint.row), Monus(edit.newEndPoint.row, edit.startPoint.row))
  }

  function TryBuildFileEdit(before: seq<byte>, after: seq<byte>, threshold: real): Outcome
  {
    if before == after then NoEdit
    else
      var start := StartByte(before, after);
      var common := CommonSuffix(before, after);
      var oldEnd, newEnd := Monus(|before|, common), Monus(|after|, common);
      if ChangedRatio(before, start, oldEnd) > threshold then NoEdit
      else if !Boundary(before, start) || !Boundary(before, oldEnd) || !Boundary(after, newEnd) then Panic
      else
        var edit := FileEdit(start, oldEnd, newEnd, ByteToPoint(before, start), ByteToPoint(before, oldEnd),
                             ByteToPoint(after, newEnd), after);
        if ChangedLines(edit) > FULL_REPARSE_LINE_LIMIT then NoEdit else Built(edit)
  }

  // ----- both scans -----------------------------------------------------------------------

  lemma {:induction false} FirstDiffIs(a: seq<byte>, b: seq<byte>, i: nat)
    requires i <= |a| && i <= |b| && a[..i] == b[..i]
    ensures var d := FirstDiff(a, b, i);
            i <= d <= |a| && d <= |b| && a[..d] == b[..d] && (d < |a| && d < |b| ==> a[d] != b[d])
    decreases |a| - i
  {
    if i < |a| && i < |b| && a[i] == b[i] {
      assert a[..i+1] == a[..i] + [a[i]] && b[..i+1] == b[..i] + [b[i]];
      FirstDiffIs(a, b, i + 1);
    }
  }

  predicate SameEnd(a: seq<byte>, b: seq<byte>, k: nat) { k <= |a| && k <= |b| && a[|a|-k..] == b[|b|-k..] }

  lemma SameEndPush(a: seq<byte>, b: seq<byte>, k: nat)
    requires SameEnd(a, b, k) && k < |a| && k < |b|
    ensures SameEnd(a, b, k + 1) <==> a[|a|-1-k] == b[|b|-1-k]
  {
    assert a[|a|-k-1..] == [a[|a|-1-k]] + a[|a|-k..];
    assert b[|b|-k-1..] == [b[|b|-1-k]] + b[|b|-k..];
  }

  lemma {:induction false} FirstDiffBackIs(a: seq<byte>, b: seq<byte>, k: nat)
    requires SameEnd(a, b, k)
    ensures match FirstDiffBack(a, b, k)
            case Some(d) => k <= d && d < |a| && d < |b| && SameEnd(a, b, d) && a[|a|-1-d] != b[|b|-1-d]
            case None => SameEnd(a, b, if |a| < |b| then |a| else |b|)
    decreases |a| - k
  {
    if k < |a| && k < |b| {
      SameEndPush(a, b, k);
      if a[|a|-1-k] == b[|b|-1-k] { FirstDiffBackIs(a, b, k + 1); }
    }
  }

  lemma BackScan(a: seq<byte>, b: seq<byte>)
    ensures SameEnd(a, b, 0)
    ensures match FirstDiffBack(a, b, 0)
            case Some(d) => && d < |a| && d < |b| && SameEnd(a, b, d) && a[|a|-1-d] != b[|b|-1-d]
                            && !SameEnd(a, b, if |a| < |b| then |a| else |b|)
            case None => SameEnd(a, b, if |a| < |b| then |a| else |b|)
  {
    var all := if |a| < |b| then |a| else |b|;
    FirstDiffBackIs(a, b, 0);
    match FirstDiffBack(a, b, 0)
    case Some(d) =>
      SameEndPush(a, b, d);
    case None =>
  }

  /** One text is the other with something inserted after the common prefix: the remainder
      of one is a suffix of the remainder of the other. */
  predicate UsedUp(before: seq<byte>, after: seq<byte>, start: nat)
  {
    && start <= |before| && start <= |after|
    && SameEnd(before[start..], after[start..], if |before| < |after| then |before| - start else |after| - start)
  }

  lemma Scans(before: seq<byte>, after: seq<byte>)
    ensures var start, common := StartByte(before, after), CommonSuffix(before, after);
            && start <= |before| && start <= |after| && before[..start] == after[..start]
            && (start < |before| && start < |after| ==> before[start] != after[start])
            && common <= |before| - start && common <= |after| - start
            && SameEnd(before[start..], after[start..], common)
            && (UsedUp(before, after, start) ==> common == 0)
            && (!UsedUp(before, after, start) ==>
                  common < |before| - start && common < |after| - start && before[|before|-1-common] != after[|after|-1-common])
  {
    hide SameEnd, FirstDiff, FirstDiffBack;
    FirstDiffIs(before, after, 0);
    var start := StartByte(before, after);
    BackScan(before[start..], after[start..]);
  }

  // ----- the theorems ----------------------------------------------------------------------

  /** The offsets of a returned edit. */
  lemma Offsets(before: seq<byte>, after: seq<byte>, threshold: real)
    requires TryBuildFileEdit(before, after, threshold).Built?
    ensures var e := TryBuildFileEdit(before, after, threshold).edit;
            var start, common := StartByte(before, after), CommonSuffix(before, after);
            && start + common <= |before| && start + common <= |after| && e.startByte == start
            && e.oldEndByte == |before| - common && e.newEndByte == |after| - common
  {
    Scans(before, after);
    hide ByteToPoint, ChangedRatio, ChangedLines, StartByte, CommonSuffix;
  }

  /** A returned edit is in range, and splicing the new middle into the old text gives the
      new text, and the other way round. */
  lemma EditSplices(before: seq<byte>, after: seq<byte>, threshold: real)
    requires TryBuildFileEdit(before, after, threshold).Built?
    ensures var e := TryBuildFileEdit(before, after, threshold).edit;
            && e.startByte <= e.oldEndByte <= |before| && e.startByte <= e.newEndByte <= |after|
            && after == before[..e.startByte] + after[e.startByte..e.newEndByte] + before[e.oldEndByte..]
            && before == after[..e.startByte] + before[e.startByte..e.oldEndByte] + after[e.newEndByte..]
  {
    Offsets(before, after, threshold);
    Scans(before, after);
    SuffixesMeet(before, after, StartByte(before, after), CommonSuffix(before, after));
    hide TryBuildFileEdit, StartByte, CommonSuffix;
  }

  /** Its three points denote its three offsets, the first one in both texts. */
  lemma EditPoints(before: seq<byte>, after: seq<byte>, threshold: real)
    requires TryBuildFileEdit(before, after, threshold).Built?
    ensures var e := TryBuildFileEdit(before, after, threshold).edit;
            && e.startPoint == ByteToPoint(before, e.startByte) == ByteToPoint(after, e.startByte)
            && PointToByte(before, e.oldEndPoint) == e.oldEndByte && PointToByte(after, e.newEndPoint) == e.newEndByte
  {
    Offsets(before, after, threshold);
    Scans(before, after);
    var e := TryBuildFileEdit(before, after, threshold).edit;
    SamePrefixSamePoint(before, after, e.startByte);
    PointRoundTrip(before, e.oldEndByte);
    PointRoundTrip(after, e.newEndByte);
    hide ByteToPoint, PointToByte, ChangedRatio, ChangedLines, StartByte, CommonSuffix;
  }

  /** It changes no more than the given fraction of the old text. */
  lemma EditWithinRatio(before: seq<byte>, after: seq<byte>, threshold: real)
    requires TryBuildFileEdit(before, after, threshold).Built? && |before| > 0
    ensures var e := TryBuildFileEdit(before, after, threshold).edit;
            e.startByte <= e.oldEndByte && (e.oldEndByte - e.startByte) as real <= threshold * |before| as real
  {
    Offsets(before, after, threshold);
    var e := TryBuildFileEdit(before, after, threshold).edit;
    RatioBound(before, e.startByte, e.oldEndByte, threshold);
    hide *;
  }

  /** It spans no more than the allowed lines of either text. */
  lemma EditWithinLines(before: seq<byte>, after: seq<byte>, threshold: real)
    requires TryBuildFileEdit(before, after, threshold).Built?
    ensures var e := TryBuildFileEdit(before, after, threshold).edit;
            && e.startByte <= e.oldEndByte <= |before| && e.startByte <= e.newEndByte <= |after|
            && RowOf(before, e.oldEndByte) <= RowOf(before, e.startByte) + 500
            && RowOf(after, e.newEndByte) <= RowOf(after, e.startByte) + 500
  {
    Offsets(before, after, threshold);
    EditPoints(before, after, threshold);
    hide StartByte, CommonSuffix, ChangedRatio, RowOf, LineStart, PointToByte;
  }

  lemma RatioBound(before: seq<byte>, start: nat, oldEnd: nat, threshold: real)
    requires start <= oldEnd && |before| > 0 && ChangedRatio(before, start, oldEnd) <= threshold
    ensures (oldEnd - start) as real <= threshold * |before| as real
  {
    var ratio := ChangedRatio(before, start, oldEnd);
    assert (oldEnd - start) as real == ratio * |before| as real;
  }

  lemma SuffixesMeet(before: seq<byte>, after: seq<byte>, start: nat, common: nat)
    requires start <= |before| && start <= |after| && before[..start] == after[..start]
    requires SameEnd(before[start..], after[start..], common)
    ensures common <= |before| - start && common <= |after| - start
    ensures before[|before|-common..] == after[|after|-common..]
    ensures after == before[..start] + after[start..|after|-common] + before[|before|-common..]
    ensures before == after[..start] + before[start..|before|-common] + after[|after|-common..]
  {
    var a, b := before[start..], after[start..];
    assert a[|a|-common..] == before[|before|-common..];
    assert b[|b|-common..] == after[|after|-common..];
  }

  /** Any prefix and suffix that the texts share without overlapping. */
  predicate Splice(before: seq<byte>, after: seq<byte>, prefix: nat, suffix: nat)
  {
    && prefix + suffix <= |before| && prefix + suffix <= |after|
    && before[..prefix] == after[..prefix] && SameEnd(before, after, suffix)
  }

  /** Whether the changed region is the smallest: exactly when the shorter remainder is
      empty or is no suffix of the longer one. After an insertion or deletion in front of a
      shared tail the whole tail counts as changed. */
  lemma EditIsMinimalIff(before: seq<byte>, after: seq<byte>)
    requires before != after
    ensures var start, common := StartByte(before, after), CommonSuffix(before, after);
            (forall p: nat, q: nat :: Splice(before, after, p, q) ==> p + q <= start + common) <==>
            (start == |before| || start == |after| || !UsedUp(before, after, start))
  {
    Scans(before, after);
    var start, common := StartByte(before, after), CommonSuffix(before, after);
    forall p: nat, q: nat | Splice(before, after, p, q) ensures p <= start { SamePrefixAt(before, after, p); }
    if start == |before| || start == |after| {
    } else if UsedUp(before, after, start) {
      var rest := if |before| < |after| then |before| - start else |after| - start;
      SuffixesMeet(before, after, start, rest);
      assert Splice(before, after, start, rest);
    } else {
      forall p: nat, q: nat | Splice(before, after, p, q) ensures q <= common {
        SameEndAt(before, after, q);
        assert !SameBack(before, after, common);
      }
    }
  }

  lemma {:induction false} InsertionForward(pre: seq<byte>, x: byte, tail: seq<byte>, i: nat)
    requires tail != [] && tail[0] != x && i <= |pre|
    ensures FirstDiff(pre + tail, pre + [x] + tail, i) == |pre|
    decreases |pre| - i
  {
    if i < |pre| { InsertionForward(pre, x, tail, i + 1); }
  }

  /** One byte inserted before a tail: the texts share everything else, but no suffix is
      found, so that the edit replaces the whole tail. */
  lemma InsertionReplacesTail(pre: seq<byte>, x: byte, tail: seq<byte>)
    requires tail != [] && tail[0] != x
    ensures var before, after := pre + tail, pre + [x] + tail;
            StartByte(before, after) == |pre| && CommonSuffix(before, after) == 0 && Splice(before, after, |pre|, |tail|)
  {
    var before, after := pre + tail, pre + [x] + tail;
    InsertionForward(pre, x, tail, 0);
    Scans(before, after);
    assert before[|pre|..] == tail && after[|pre|..] == [x] + tail && after[|pre|+1..] == tail;
    assert UsedUp(before, after, |pre|);
    assert before[..|pre|] == pre == after[..|pre|];
  }

  lemma SamePrefixAt(a: seq<byte>, b: seq<byte>, p: nat)
    requires p <= |a| && p <= |b| && a[..p] == b[..p]
    ensures forall k :: 0 <= k < p ==> a[k] == b[k]
  {
    forall k | 0 <= k < p ensures a[k] == b[k] { assert a[k] == a[..p][k] && b[k] == b[..p][k]; }
  }

  predicate SameBack(a: seq<byte>, b: seq<byte>, k: nat) { k < |a| && k < |b| && a[|a|-1-k] == b[|b|-1-k] }

  lemma SameEndAt(a: seq<byte>, b: seq<byte>, q: nat)
    requires SameEnd(a, b, q)
    ensures forall k: nat :: k < q ==> SameBack(a, b, k)
  {
    forall k: nat | k < q ensures SameBack(a, b, k) {
      assert a[|a|-1-k] == a[|a|-q..][q-1-k] && b[|b|-1-k] == b[|b|-q..][q-1-k];
    }
  }

  lemma Shape(before: seq<byte>, after: seq<byte>)
    ensures var start, common := StartByte(before, after), CommonSuffix(before, after);
            && start + common <= |before| && start + common <= |after|
            && (common > 0 ==> common < |before| - start && common < |after| - start
                               && before[|before|-common] == after[|after|-common])
  {
    Scans(before, after);
    var start, common := StartByte(before, after), CommonSuffix(before, after);
    SuffixesMeet(before, after, start, common);
    if common > 0 {
      assert before[|before|-common] == before[|before|-common..][0] && after[|after|-common] == after[|after|-common..][0];
    }
  }

  /** When the builder panics, exactly: the texts differ by little enough, and the first
      differing byte of the old text, or the first byte of the common suffix, lies inside a
      character. */
  lemma PanicsIff(before: seq<byte>, after: seq<byte>, threshold: real)
    ensures var start, common := StartByte(before, after), CommonSuffix(before, after);
            TryBuildFileEdit(before, after, threshold).Panic? <==>
            && start <= |before| && common <= |before| && before != after
            && ChangedRatio(before, start, |before| - common) <= threshold
            && ((0 < start < |before| && Tail(before[start])) || (0 < common < |before| && Tail(before[|before|-common])))
  {
    Shape(before, after);
    hide StartByte, CommonSuffix, ByteToPoint, ChangedRatio, ChangedLines;
  }

  /** ASCII texts never make it panic. */
  lemma AsciiNeverPanics(before: seq<byte>, after: seq<byte>, threshold: real)
    requires forall k :: 0 <= k < |before| ==> before[k] < 0x80
    ensures !TryBuildFileEdit(before, after, threshold).Panic?
  {
    PanicsIff(before, after, threshold);
  }

  /** A one-byte change of a trailing byte, é to è say, panics in every text that is long
      enough for the change to be small. */
  lemma TrailingByteEditPanics(pre: seq<byte>, a: byte, b: byte, post: seq<byte>, threshold: real)
    requires pre != [] && a != b && Tail(a) && Tail(b) && 1.0 / (|pre| + 1 + |post|) as real <= threshold
    ensures TryBuildFileEdit(pre + [a] + post, pre + [b] + post, threshold).Panic?
  {
    var before, after := pre + [a] + post, pre + [b] + post;
    OneByteScans(pre, a, b, post);
    PanicsIff(before, after, threshold);
    assert before[|pre|] == a && after[|pre|] == b;
    assert ChangedRatio(before, |pre|, |before| - |post|) == 1.0 / (|pre| + 1 + |post|) as real;
    hide TryBuildFileEdit, StartByte, CommonSuffix, ChangedRatio;
  }

  lemma {:induction false} OneByteForward(pre: seq<byte>, a: byte, b: byte, post: seq<byte>, i: nat)
    requires a != b && i <= |pre|
    ensures FirstDiff(pre + [a] + post, pre + [b] + post, i) == |pre|
    decreases |pre| - i
  {
    if i < |pre| { OneByteForward(pre, a, b, post, i + 1); }
  }

  lemma {:induction false} OneByteBack(a: byte, b: byte, post: seq<byte>, k: nat)
    requires a != b && k <= |post|
    ensures FirstDiffBack([a] + post, [b] + post, k) == Some(|post|)
    decreases |post| - k
  {
    if k < |post| { OneByteBack(a, b, post, k + 1); }
  }

  lemma OneByteScans(pre: seq<byte>, a: byte, b: byte, post: seq<byte>)
    requires a != b
    ensures StartByte(pre + [a] + post, pre + [b] + post) == |pre|
    ensures CommonSuffix(pre + [a] + post, pre + [b] + post) == |post|
  {
    OneByteForward(pre, a, b, post, 0);
    OneByteBack(a, b, post, 0);
    assert (pre + [a] + post)[|pre|..] == [a] + post && (pre + [b] + post)[|pre|..] == [b] + post;
  }

  /** An edit is built exactly for texts that differ by little enough, in whole characters and
      within 500 lines of either. */
  lemma BuiltIff(before: seq<byte>, after: seq<byte>, threshold: real)
    ensures var start, common := StartByte(before, after), CommonSuffix(before, after);
            && start + common <= |before| && start + common <= |after|
            && (TryBuildFileEdit(before, after, threshold).Built? <==>
                && before != after
                && (|before| - common - start) as real / (if |before| > 0 then |before| else 1) as real <= threshold
                && !TryBuildFileEdit(before, after, threshold).Panic?
                && RowOf(before, |before| - common) <= RowOf(before, start) + 500
                && RowOf(after, |after| - common) <= RowOf(before, start) + 500)
  {
    Shape(before, after);
    hide StartByte, CommonSuffix, RowOf, LineStart;
  }
}
