/** The projection files of a scan directory, in enumeration order, and the cursor
    that `LoadNextProj` keeps over them. */
module FrameSource {

  datatype Option<T> = None | Some(value: T)

  /** One projection file: its ImageType text, its gantry angle in degrees and its
      16-bit samples, row by row. */
  datatype Frame = Frame(imageType: string, angle: real, pixels: seq<int>)

  /** `pat` occurs in `s` starting at position `k`. */
  predicate OccursAt(s: string, pat: string, k: int) {
    0 <= k <= |s| - |pat| && s[k..k + |pat|] == pat
  }

  /** Whether `pat` occurs in `s` (the test made with `strstr`), searched from the left. */
  function Contains(s: string, pat: string): bool
    decreases |s|
  {
    if |pat| > |s| then false
    else if s[..|pat|] == pat then true
    else Contains(s[1..], pat)
  }

  /** The search finds `pat` exactly when it occurs somewhere in `s`. */
  lemma {:induction false} ContainsIffOccurs(s: string, pat: string)
    ensures Contains(s, pat) <==> exists k :: OccursAt(s, pat, k)
    decreases |s|
  {
    if |pat| > |s| {
    } else if s[..|pat|] == pat {
      assert OccursAt(s, pat, 0);
    } else {
      ContainsIffOccurs(s[1..], pat);
      if Contains(s[1..], pat) {
        var k :| OccursAt(s[1..], pat, k);
        assert s[k + 1..k + 1 + |pat|] == s[1..][k..k + |pat|];
        assert OccursAt(s, pat, k + 1);
      }
      if k :| OccursAt(s, pat, k) {
        assert k != 0;
        assert s[1..][k - 1..k - 1 + |pat|] == s[k..k + |pat|];
        assert OccursAt(s[1..], pat, k - 1);
      }
    }
  }

  /** The calibration frame recorded without an object in the beam. */
  predicate IsBlankScan(f: Frame) {
    Contains(f.imageType, "BLANK SCAN")
  }

  /** Index of the first blank scan, if there is one. */
  function FirstBlank(frames: seq<Frame>, from: nat): (r: Option<nat>)
    requires from <= |frames|
    decreases |frames| - from
    ensures r.Some? ==> from <= r.value < |frames| && IsBlankScan(frames[r.value])
    ensures r.Some? ==> forall k :: from <= k < r.value ==> !IsBlankScan(frames[k])
    ensures r.None? ==> forall k :: from <= k < |frames| ==> !IsBlankScan(frames[k])
  {
    if from == |frames| then None
    else if IsBlankScan(frames[from]) then Some(from)
    else FirstBlank(frames, from + 1)
  }

  /** A cursor is -1 (no enumeration open) or the index of the last file read. */
  predicate IsCursor(frames: seq<Frame>, cursor: int) {
    -1 <= cursor < |frames|
  }

  /** The file the next successful `LoadNextProj` reads: the first file after the cursor
      that is not a blank scan. */
  function NextProjection(frames: seq<Frame>, cursor: int): (r: Option<nat>)
    requires IsCursor(frames, cursor)
    decreases |frames| - cursor
    ensures r.Some? ==> cursor < r.value < |frames| && !IsBlankScan(frames[r.value])
    ensures r.Some? ==> forall k :: cursor < k < r.value ==> IsBlankScan(frames[k])
    ensures r.None? <==> forall k :: cursor < k < |frames| ==> IsBlankScan(frames[k])
  {
    if cursor + 1 == |frames| then None
    else if IsBlankScan(frames[cursor + 1]) then NextProjection(frames, cursor + 1)
    else Some(cursor + 1)
  }

  /** The projections still to come after the cursor, in the order they are read:
      every non-blank file after the cursor, each once, in increasing order. */
  function Pending(frames: seq<Frame>, cursor: int): (ks: seq<nat>)
    requires IsCursor(frames, cursor)
    decreases |frames| - cursor
    ensures forall t :: 0 <= t < |ks| ==> cursor < ks[t] < |frames| && !IsBlankScan(frames[ks[t]])
  {
    if cursor + 1 == |frames| then []
    else if IsBlankScan(frames[cursor + 1]) then Pending(frames, cursor + 1)
    else [cursor + 1] + Pending(frames, cursor + 1)
  }

  /** The pending list is strictly increasing and holds every projection after the
      cursor. */
  lemma {:induction false} PendingComplete(frames: seq<Frame>, cursor: int)
    requires IsCursor(frames, cursor)
    ensures forall s, t :: 0 <= s < t < |Pending(frames, cursor)| ==> Pending(frames, cursor)[s] < Pending(frames, cursor)[t]
    ensures forall k :: cursor < k < |frames| && !IsBlankScan(frames[k]) ==> k in Pending(frames, cursor)
    decreases |frames| - cursor
  {
    if cursor + 1 < |frames| {
      PendingComplete(frames, cursor + 1);
    }
  }

  /** Reading one projection consumes the head of the pending list; an empty pending
      list is exactly when the next read fails. */
  lemma {:induction false} NextIsPendingHead(frames: seq<Frame>, cursor: int)
    requires IsCursor(frames, cursor)
    ensures NextProjection(frames, cursor).None? <==> Pending(frames, cursor) == []
    ensures NextProjection(frames, cursor).Some? ==>
      var k := NextProjection(frames, cursor).value;
      Pending(frames, cursor) == [k] + Pending(frames, k)
    decreases |frames| - cursor
  {
    if cursor + 1 < |frames| && IsBlankScan(frames[cursor + 1]) {
      NextIsPendingHead(frames, cursor + 1);
    }
  }
}
