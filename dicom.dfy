/** What `WriteDicom` computes before it hands the data to the DICOM writer: the pixel
    buffer, the slice vector and the two instance UIDs. The writer itself, the copied
    metadata and the file output are not part of this model. */
module Dicom {
  import opened CMath

  // Pixel data

  /** The `max` macro of the Windows headers: the first argument when it is greater,
      otherwise the second. */
  function Max(a: real, b: real): real {
    if a > b then a else b
  }

  /** The unsigned 16-bit sample stored for voxel value `v`: a hundred times the value,
      clamped below at zero and truncated to an integer. */
  function StoredValue(v: real): (w: nat)
    ensures w < 0x1_0000
    ensures v <= 0.0 ==> w == 0
    ensures 100.0 * v < 65536.0 ==> w as real <= Max(100.0 * v, 0.0) < w as real + 1.0
  {
    Word(Trunc(Max(100.0 * v, 0.0)))
  }

  /** Position of voxel (i, j, k) of the written volume in the pixel buffer: slice by
      slice, row by row. */
  function PixelIndex(slices: nat, rows: nat, cols: nat, i: nat, j: nat, k: nat): (t: nat)
    requires i < slices && j < rows && k < cols
    ensures t < slices * rows * cols
  {
    BlockBefore(j, rows, cols, k);
    BlockBefore(i, slices, rows * cols, j * cols + k);
    MulAssoc(i, rows, cols);
    MulAssoc(slices, rows, cols);
    i * rows * cols + j * cols + k
  }

  /** Different voxels go to different positions. */
  lemma PixelIndexInjective(slices: nat, rows: nat, cols: nat, i: nat, j: nat, k: nat, i': nat, j': nat, k': nat)
    requires i < slices && j < rows && k < cols && i' < slices && j' < rows && k' < cols
    requires PixelIndex(slices, rows, cols, i, j, k) == PixelIndex(slices, rows, cols, i', j', k')
    ensures i == i' && j == j' && k == k'
  {
    PixelIndexSplit(slices, rows, cols, i, j, k);
    PixelIndexSplit(slices, rows, cols, i', j', k');
    NestedBlockUnique(rows, cols, i, j, k, i', j', k');
  }

  /** The position of a voxel is its slice's block of `rows * cols` positions plus its
      offset within the slice. */
  lemma PixelIndexSplit(slices: nat, rows: nat, cols: nat, i: nat, j: nat, k: nat)
    requires i < slices && j < rows && k < cols
    ensures PixelIndex(slices, rows, cols, i, j, k) == i * (rows * cols) + (j * cols + k)
  {
    MulAssoc(i, rows, cols);
  }

  /** Every position of the buffer belongs to a voxel: the buffer is written entirely. */
  lemma PixelIndexCovers(slices: nat, rows: nat, cols: nat, t: nat)
    requires t < slices * rows * cols
    ensures exists i, j, k :: 0 <= i < slices && 0 <= j < rows && 0 <= k < cols && PixelIndex(slices, rows, cols, i, j, k) == t
  {
    MulAssoc(slices, rows, cols);
    var i, u := BlockOf(t, slices, rows * cols);
    var j, k := BlockOf(u, rows, cols);
    MulAssoc(i, rows, cols);
    assert PixelIndex(slices, rows, cols, i, j, k) == t;
  }

  /** The pixel buffer: slice order and row order reversed, column order kept, each
      voxel stored by `StoredValue`. */
  method PackPixels(vol: array3<real>) returns (p: array<int>)
    ensures p.Length == vol.Length0 * vol.Length1 * vol.Length2
    ensures forall i, j, k :: 0 <= i < vol.Length0 && 0 <= j < vol.Length1 && 0 <= k < vol.Length2 ==>
      p[PixelIndex(vol.Length0, vol.Length1, vol.Length2, i, j, k)] ==
        StoredValue(vol[vol.Length0 - 1 - i, vol.Length1 - 1 - j, k])
  {
    p := new int[vol.Length0 * vol.Length1 * vol.Length2];
    for i := 0 to vol.Length0
      invariant forall i', j, k :: 0 <= i' < i && 0 <= j < vol.Length1 && 0 <= k < vol.Length2 ==>
        p[PixelIndex(vol.Length0, vol.Length1, vol.Length2, i', j, k)] ==
          StoredValue(vol[vol.Length0 - 1 - i', vol.Length1 - 1 - j, k])
    {
      PackSlice(vol, p, i);
      forall i', j, k | 0 <= i' < i && 0 <= j < vol.Length1 && 0 <= k < vol.Length2
        ensures PixelIndex(vol.Length0, vol.Length1, vol.Length2, i', j, k) < SliceStart(vol, i)
      {
        SliceBefore(vol, i', i, j, k);
      }
    }
  }

  /** Every position of an earlier slice lies before slice `i`. */
  lemma SliceBefore(vol: array3<real>, i': nat, i: nat, j: nat, k: nat)
    requires i' < i < vol.Length0 && j < vol.Length1 && k < vol.Length2
    ensures PixelIndex(vol.Length0, vol.Length1, vol.Length2, i', j, k) < SliceStart(vol, i)
  {
    var rows, cols := vol.Length1, vol.Length2;
    BlockBefore(j, rows, cols, k);
    BlockBefore(i', i, rows * cols, j * cols + k);
    MulAssoc(i', rows, cols);
    MulAssoc(i, rows, cols);
  }

  /** Slice `i` of the buffer, row by row; only the slice's block of positions changes. */
  method PackSlice(vol: array3<real>, p: array<int>, i: nat)
    requires p.Length == vol.Length0 * vol.Length1 * vol.Length2 && i < vol.Length0
    modifies p
    ensures forall j, k :: 0 <= j < vol.Length1 && 0 <= k < vol.Length2 ==>
      p[PixelIndex(vol.Length0, vol.Length1, vol.Length2, i, j, k)] ==
        StoredValue(vol[vol.Length0 - 1 - i, vol.Length1 - 1 - j, k])
    ensures forall t :: 0 <= t < p.Length && !(SliceStart(vol, i) <= t < SliceStart(vol, i) + vol.Length1 * vol.Length2) ==>
      p[t] == old(p[t])
  {
    var rows, cols := vol.Length1, vol.Length2;
    for j := 0 to rows
      invariant forall j', k :: 0 <= j' < j && 0 <= k < cols ==>
        p[PixelIndex(vol.Length0, rows, cols, i, j', k)] == StoredValue(vol[vol.Length0 - 1 - i, rows - 1 - j', k])
      invariant forall t :: 0 <= t < p.Length && !(SliceStart(vol, i) <= t < SliceStart(vol, i) + j * cols) ==>
        p[t] == old(p[t])
    {
      PackRow(vol, p, i, j);
      forall j', k | 0 <= j' < j && 0 <= k < cols
        ensures PixelIndex(vol.Length0, rows, cols, i, j', k) < RowStart(vol, i, j)
      {
        BlockBefore(j', j, cols, k);
      }
      assert (j + 1) * cols == j * cols + cols;
    }
  }

  /** Where slice `i` starts in the buffer. */
  function SliceStart(vol: array3<real>, i: nat): (t: nat)
    requires i < vol.Length0
    ensures forall j :: 0 <= j < vol.Length1 ==> RowStart(vol, i, j) == t + j * vol.Length2
  {
    i * vol.Length1 * vol.Length2
  }

  /** Row `j` of slice `i`: the innermost loop over the columns. Only the row's own
      block of `cols` positions changes. */
  method PackRow(vol: array3<real>, p: array<int>, i: nat, j: nat)
    requires p.Length == vol.Length0 * vol.Length1 * vol.Length2 && i < vol.Length0 && j < vol.Length1
    modifies p
    ensures forall k :: 0 <= k < vol.Length2 ==>
      p[PixelIndex(vol.Length0, vol.Length1, vol.Length2, i, j, k)] ==
        StoredValue(vol[vol.Length0 - 1 - i, vol.Length1 - 1 - j, k])
    ensures forall t :: 0 <= t < p.Length && !(RowStart(vol, i, j) <= t < RowStart(vol, i, j) + vol.Length2) ==>
      p[t] == old(p[t])
  {
    var slices, rows, cols := vol.Length0, vol.Length1, vol.Length2;
    var start := RowStart(vol, i, j);
    for k := 0 to cols
      invariant forall k' :: 0 <= k' < k ==>
        p[PixelIndex(slices, rows, cols, i, j, k')] == StoredValue(vol[slices - 1 - i, rows - 1 - j, k'])
      invariant forall t :: 0 <= t < p.Length && !(RowStart(vol, i, j) <= t < RowStart(vol, i, j) + k) ==>
        p[t] == old(p[t])
    {
      assert PixelIndex(slices, rows, cols, i, j, k) == start + k;
      p[start + k] := StoredValue(vol[slices - 1 - i, rows - 1 - j, k]);
    }
  }

  /** Where row `j` of slice `i` starts in the buffer. */
  function RowStart(vol: array3<real>, i: nat, j: nat): (t: nat)
    requires i < vol.Length0 && j < vol.Length1
    ensures forall k :: 0 <= k < vol.Length2 ==> PixelIndex(vol.Length0, vol.Length1, vol.Length2, i, j, k) == t + k
  {
    i * vol.Length1 * vol.Length2 + j * vol.Length2
  }

  // Slice vector

  /** The slice vector (0054,0080) numbers the slices 1, 2, ... in unsigned 16-bit
      entries, and the number of slices (0054,0081) is the slice count in 16 bits. */
  method SliceVector(slices: nat) returns (v: array<int>, count: int)
    ensures v.Length == slices && count == Word(slices)
    ensures forall i :: 0 <= i < slices ==> v[i] == Word(i + 1)
  {
    v := new int[slices];
    for i := 0 to slices
      invariant forall i' :: 0 <= i' < i ==> v[i'] == Word(i' + 1)
    {
      v[i] := Word(i + 1);
    }
    count := Word(slices);
  }

  /** Up to 65535 slices the vector numbers them 1..slices in order; slice 65536 is
      numbered 0. */
  lemma SliceNumbers(i: nat)
    ensures i < 0xFFFF ==> Word(i + 1) == i + 1
    ensures i == 0xFFFF ==> Word(i + 1) == 0
  {
  }

  // Unique identifiers

  /** The decimal digit `d`. */
  function Digit(d: nat): (c: char)
    requires d < 10
    ensures '0' <= c <= '9' && (c == '0' <==> d == 0)
  {
    "0123456789"[d]
  }

  /** `printf`'s `%d` of a non-negative number: its decimal digits, without leading
      zeros. */
  function Decimal(n: nat): (s: string)
    ensures |s| >= 1 && forall t :: 0 <= t < |s| ==> '0' <= s[t] <= '9'
    ensures s[0] == '0' <==> n == 0
    ensures n == 0 ==> |s| == 1
    decreases n
  {
    if n < 10 then [Digit(n)] else Decimal(n / 10) + [Digit(n % 10)]
  }

  /** The number a string of decimal digits denotes. */
  function ValueOf(s: string): nat
    requires forall t :: 0 <= t < |s| ==> '0' <= s[t] <= '9'
  {
    if |s| == 0 then 0 else 10 * ValueOf(s[..|s| - 1]) + (s[|s| - 1] as int - '0' as int)
  }

  /** `%d` loses nothing: reading the digits back gives the number. */
  lemma {:induction false} DecimalRoundTrip(n: nat)
    ensures ValueOf(Decimal(n)) == n
    decreases n
  {
    if n >= 10 {
      DecimalRoundTrip(n / 10);
      assert Decimal(n)[..|Decimal(n)| - 1] == Decimal(n / 10);
    }
  }

  function Pow10(k: nat): nat {
    if k == 0 then 1 else 10 * Pow10(k - 1)
  }

  /** A number below 10^k prints in at most k digits. */
  lemma {:induction false} DecimalLength(n: nat, k: nat)
    requires k >= 1 && n < Pow10(k)
    ensures |Decimal(n)| <= k
    decreases k
  {
    if n >= 10 {
      DecimalLength(n / 10, k - 1);
    }
  }

  /** `strrchr`: the position of the last `ch` in `s`, or -1 when there is none. */
  function LastIndexOf(s: string, ch: char): (i: int)
    ensures -1 <= i < |s|
    ensures i >= 0 ==> s[i] == ch
    ensures forall t :: i < t < |s| ==> s[t] != ch
  {
    LastIndexBelow(s, ch, |s|)
  }

  /** The last occurrence of `ch` among the first `n` characters, scanning backwards. */
  function LastIndexBelow(s: string, ch: char, n: nat): (i: int)
    requires n <= |s|
    ensures -1 <= i < n
    ensures i >= 0 ==> s[i] == ch
    ensures forall t :: i < t < n ==> s[t] != ch
  {
    if n == 0 then -1 else if s[n - 1] == ch then n - 1 else LastIndexBelow(s, ch, n - 1)
  }

  /** An occurrence with no later one is the last. */
  lemma LastIndexOfIs(s: string, ch: char, i: nat)
    requires i < |s| && s[i] == ch && forall t :: i < t < |s| ==> s[t] != ch
    ensures LastIndexOf(s, ch) == i
  {
  }

  /** The dot-separated components of `s`. */
  function Components(s: string): (cs: seq<string>)
    ensures |cs| >= 1
    decreases |s|
  {
    var i := LastIndexOf(s, '.');
    if i < 0 then [s] else Components(s[..i]) + [s[i + 1..]]
  }

  /** Appending a dot and a dot-free string: the last dot is the one appended. */
  lemma LastDotAppended(p: string, q: string)
    requires forall t :: 0 <= t < |q| ==> q[t] != '.'
    ensures LastIndexOf(p + "." + q, '.') == |p|
  {
    var s := p + "." + q;
    assert s[|p|] == '.';
    forall t | |p| < t < |s| ensures s[t] != '.' {
      assert s[t] == q[t - |p| - 1];
    }
    LastIndexOfIs(s, '.', |p|);
  }

  /** Appending a dot and a dot-free string appends one component. */
  lemma ComponentsAppend(p: string, q: string)
    requires forall t :: 0 <= t < |q| ==> q[t] != '.'
    ensures LastIndexOf(p + "." + q, '.') == |p|
    ensures (p + "." + q)[..|p|] == p
    ensures Components(p + "." + q) == Components(p) + [q]
  {
    LastDotAppended(p, q);
    Halves(p, q);
  }

  /** The two sides of the dot appended. */
  lemma Halves(p: string, q: string)
    ensures (p + "." + q)[..|p|] == p && (p + "." + q)[|p| + 1..] == q
  {
    var s := p + "." + q;
    assert s[..|p|] == p;
    assert s[|p| + 1..] == q;
  }

  /** A UID component as section 9.1 of DICOM PS3.5 allows it: digits only, at least
      one, and no leading zero unless the component is the single digit 0. */
  predicate ValidComponent(c: string) {
    |c| >= 1 && (forall t :: 0 <= t < |c| ==> '0' <= c[t] <= '9') && (c[0] == '0' ==> |c| == 1)
  }

  /** A UID as section 9.1 of DICOM PS3.5 allows it: valid components joined by dots,
      at most 64 characters. */
  predicate ValidUid(s: string) {
    |s| <= 64 && AllValid(Components(s))
  }

  /** Every component in `cs` is valid. */
  predicate AllValid(cs: seq<string>) {
    forall t :: 0 <= t < |cs| ==> ValidComponent(cs[t])
  }

  /** A list of components is valid exactly when both of its parts are. */
  lemma AllValidConcat(a: seq<string>, b: seq<string>)
    ensures AllValid(a + b) <==> AllValid(a) && AllValid(b)
  {
    if AllValid(a) && AllValid(b) {
      forall t | 0 <= t < |a + b| ensures ValidComponent((a + b)[t]) {
        if t < |a| {
          assert (a + b)[t] == a[t];
        } else {
          assert (a + b)[t] == b[t - |a|];
        }
      }
    }
    if AllValid(a + b) {
      forall t | 0 <= t < |a| ensures ValidComponent(a[t]) {
        assert (a + b)[t] == a[t];
      }
      forall t | 0 <= t < |b| ensures ValidComponent(b[t]) {
        assert (a + b)[|a| + t] == b[t];
      }
    }
  }

  /** The organisation root every UID the engine makes starts with. */
  const Root: string := "1.2.276.0.7230010.3.1.4.342487148"

  /** The components of the root, as the format string writes them. */
  const RootParts: seq<string> := ["1", "2", "276", "0", "7230010", "3", "1", "4", "342487148"]

  /** A string without dots. */
  predicate DotFree(s: string) {
    forall t :: 0 <= t < |s| ==> s[t] != '.'
  }

  /** The first `n` parts joined by dots. */
  function JoinUpTo(parts: seq<string>, n: nat): string
    requires 1 <= n <= |parts|
  {
    if n == 1 then parts[0] else JoinUpTo(parts, n - 1) + "." + parts[n - 1]
  }

  /** Splitting joined dot-free parts at the dots gives the parts back. */
  lemma {:induction false} ComponentsJoin(parts: seq<string>, n: nat)
    requires 1 <= n <= |parts| && forall i :: 0 <= i < |parts| ==> DotFree(parts[i])
    ensures Components(JoinUpTo(parts, n)) == parts[..n]
  {
    if n == 1 {
      assert DotFree(parts[0]);
      assert LastIndexOf(parts[0], '.') == -1;
    } else {
      var init := JoinUpTo(parts, n - 1);
      ComponentsJoin(parts, n - 1);
      assert DotFree(parts[n - 1]);
      ComponentsAppend(init, parts[n - 1]);
      PrefixStep(parts, n);
    }
  }

  lemma PrefixStep(parts: seq<string>, n: nat)
    requires 1 <= n <= |parts|
    ensures parts[..n - 1] + [parts[n - 1]] == parts[..n]
  {
  }

  /** The root splits into the nine components written in it. */
  lemma RootComponents()
    ensures Components(Root) == RootParts
  {
    assert forall i :: 0 <= i < |RootParts| ==> DotFree(RootParts[i]);
    ComponentsJoin(RootParts, 9);
    RootIsJoin();
    assert RootParts[..9] == RootParts;
  }

  /** The root is its components joined by dots. */
  lemma RootIsJoin()
    ensures JoinUpTo(RootParts, 9) == Root
  {
    RootBodyIsJoin();
    var body := JoinUpTo(RootParts, 8);
    assert JoinUpTo(RootParts, 9) == body + "." + "342487148";
    assert "1.2.276.0.7230010.3.1.4" + "." + "342487148" == Root;
  }

  lemma RootBodyIsJoin()
    ensures JoinUpTo(RootParts, 8) == "1.2.276.0.7230010.3.1.4"
  {
    RootHeadIsJoin();
  }

  lemma RootHeadIsJoin()
    ensures JoinUpTo(RootParts, 5) == "1.2.276.0.7230010"
  {
    RootStartIsJoin();
  }

  lemma RootStartIsJoin()
    ensures JoinUpTo(RootParts, 3) == "1.2.276"
  {
  }

  /** Every component of the root is valid, and the root has 33 characters. */
  lemma RootValid()
    ensures |Root| == 33 && |Components(Root)| == 9 && AllValid(Components(Root))
  {
    RootComponents();
    RootPartsValid();
  }

  /** Each number written in the root is a valid component on its own. */
  lemma RootPartsValid()
    ensures AllValid(RootParts)
  {
  }

  /** `%d` prints a valid component. */
  lemma DecimalValid(n: nat)
    ensures ValidComponent(Decimal(n))
  {
  }

  /** Three numbers printed as one run of digits make a valid component exactly when
      the first is not 0. */
  lemma RunValid(lead: nat, mid: nat, tail: nat)
    ensures ValidComponent(Decimal(lead) + Decimal(mid) + Decimal(tail)) <==> lead != 0
  {
    RunOfDigits(Decimal(lead), Decimal(mid), Decimal(tail));
  }

  /** Three digit strings written one after the other make a component that is valid
      exactly when the first does not start with 0. */
  lemma RunOfDigits(a: string, b: string, c: string)
    requires |a| >= 1 && |b| >= 1 && |c| >= 1
    requires forall t :: 0 <= t < |a| ==> '0' <= a[t] <= '9'
    requires forall t :: 0 <= t < |b| ==> '0' <= b[t] <= '9'
    requires forall t :: 0 <= t < |c| ==> '0' <= c[t] <= '9'
    ensures ValidComponent(a + b + c) <==> a[0] != '0'
  {
    var run := a + b + c;
    assert run[0] == a[0];
    forall t | 0 <= t < |run| ensures '0' <= run[t] <= '9' {
      if t < |a| {
        assert run[t] == a[t];
      } else if t < |a| + |b| {
        assert run[t] == b[t - |a|];
      } else {
        assert run[t] == c[t - |a| - |b|];
      }
    }
  }

  /** The UID `WriteDicom` prints from five numbers: the root, then `.study`, then
      `.lead mid tail` printed as one run of digits, then `.last`. */
  function FormatUid(study: nat, lead: nat, mid: nat, tail: nat, last: nat): string {
    Root + "." + Decimal(study) + "." + (Decimal(lead) + Decimal(mid) + Decimal(tail)) + "." + Decimal(last)
  }

  /** The SOP instance UID, from five numbers `rand()` returned, in the order the
      format consumes them. */
  function SopUid(a: nat, b: nat, c: nat, d: nat, e: nat): string {
    FormatUid(a % 10000, b % 1000, c % 10000, d % 1000, e % 10)
  }

  /** Cutting a UID at its last dot and again at the new last dot, then printing
      `.lead mid tail.last` in their place. */
  function ReplaceSuffix(uid: string, lead: nat, mid: nat, tail: nat, last: nat): string
    requires LastIndexOf(uid, '.') >= 0 && LastIndexOf(uid[..LastIndexOf(uid, '.')], '.') >= 0
  {
    var first := uid[..LastIndexOf(uid, '.')];
    var second := first[..LastIndexOf(first, '.')];
    second + "." + (Decimal(lead) + Decimal(mid) + Decimal(tail)) + "." + Decimal(last)
  }

  /** The series instance UID: the SOP instance UID with its last two components
      replaced, from four further numbers `rand()` returned. */
  function SeriesUid(sop: string, b: nat, c: nat, d: nat, e: nat): string
    requires LastIndexOf(sop, '.') >= 0 && LastIndexOf(sop[..LastIndexOf(sop, '.')], '.') >= 0
  {
    ReplaceSuffix(sop, b % 1000, c % 10000, d % 1000, e % 10)
  }

  /** A string of decimal digits contains no dot. */
  lemma DigitsHaveNoDot(s: string)
    requires forall t :: 0 <= t < |s| ==> '0' <= s[t] <= '9'
    ensures forall t :: 0 <= t < |s| ==> s[t] != '.'
  {
  }

  /** The twelve components of a formatted UID. */
  lemma FormatUidComponents(study: nat, lead: nat, mid: nat, tail: nat, last: nat)
    ensures var run := Decimal(lead) + Decimal(mid) + Decimal(tail);
      Components(FormatUid(study, lead, mid, tail, last)) == Components(Root) + [Decimal(study), run, Decimal(last)]
  {
    var run := Decimal(lead) + Decimal(mid) + Decimal(tail);
    DigitsHaveNoDot(Decimal(study));
    DigitsHaveNoDot(run);
    DigitsHaveNoDot(Decimal(last));
    ComponentsAppend(Root, Decimal(study));
    ComponentsAppend(Root + "." + Decimal(study), run);
    ComponentsAppend(Root + "." + Decimal(study) + "." + run, Decimal(last));
  }

  /** Replacing the suffix of a formatted UID keeps its study component and prints the
      new numbers in place of the old. */
  lemma ReplaceSuffixOfFormat(study: nat, lead: nat, mid: nat, tail: nat, last: nat,
                              lead': nat, mid': nat, tail': nat, last': nat)
    ensures var uid := FormatUid(study, lead, mid, tail, last);
      LastIndexOf(uid, '.') >= 0 && LastIndexOf(uid[..LastIndexOf(uid, '.')], '.') >= 0 &&
      ReplaceSuffix(uid, lead', mid', tail', last') == FormatUid(study, lead', mid', tail', last')
  {
    var run := Decimal(lead) + Decimal(mid) + Decimal(tail);
    DigitsHaveNoDot(run);
    DigitsHaveNoDot(Decimal(last));
    CutTwice(Root + "." + Decimal(study), run, Decimal(last));
  }

  /** Cutting `head.x.y` at its last dot and again at the new last dot leaves `head`,
      when neither `x` nor `y` holds a dot. */
  lemma CutTwice(head: string, x: string, y: string)
    requires forall t :: 0 <= t < |x| ==> x[t] != '.'
    requires forall t :: 0 <= t < |y| ==> y[t] != '.'
    ensures var s := head + "." + x + "." + y;
      LastIndexOf(s, '.') == |head + "." + x| && s[..LastIndexOf(s, '.')] == head + "." + x &&
      LastIndexOf(head + "." + x, '.') == |head| && (head + "." + x)[..|head|] == head
  {
    ComponentsAppend(head, x);
    ComponentsAppend(head + "." + x, y);
  }

  /** The series UID of a SOP UID is the SOP UID the same study number and the new
      numbers would give. */
  lemma SeriesOfSop(a: nat, b: nat, c: nat, d: nat, e: nat, b': nat, c': nat, d': nat, e': nat)
    ensures var sop := SopUid(a, b, c, d, e);
      LastIndexOf(sop, '.') >= 0 && LastIndexOf(sop[..LastIndexOf(sop, '.')], '.') >= 0 &&
      SeriesUid(sop, b', c', d', e') == SopUid(a, b', c', d', e')
  {
    ReplaceSuffixOfFormat(a % 10000, b % 1000, c % 10000, d % 1000, e % 10, b' % 1000, c' % 10000, d' % 1000, e' % 10);
  }

  /** With the bounds the engine's remainders give, a formatted UID is valid exactly when
      its leading number is not 0: a 0 there starts a component of several digits with a
      zero. */
  lemma FormatUidValid(study: nat, lead: nat, mid: nat, tail: nat, last: nat)
    requires study < 10000 && lead < 1000 && mid < 10000 && tail < 1000 && last < 10
    ensures ValidUid(FormatUid(study, lead, mid, tail, last)) <==> lead != 0
  {
    var run := Decimal(lead) + Decimal(mid) + Decimal(tail);
    FormatUidComponents(study, lead, mid, tail, last);
    FormatUidLength(study, lead, mid, tail, last);
    RootValid();
    AllValidConcat(Components(Root), [Decimal(study), run, Decimal(last)]);
    DecimalValid(study);
    DecimalValid(last);
    RunValid(lead, mid, tail);
    ThreeValid(Decimal(study), run, Decimal(last));
  }

  /** Three components, the outer two valid, are valid exactly when the middle one is. */
  lemma ThreeValid(x: string, r: string, y: string)
    requires ValidComponent(x) && ValidComponent(y)
    ensures AllValid([x, r, y]) <==> ValidComponent(r)
  {
    assert [x, r, y][1] == r;
  }

  /** Within the bounds of the remainders, a formatted UID has at most 64 characters. */
  lemma FormatUidLength(study: nat, lead: nat, mid: nat, tail: nat, last: nat)
    requires study < 10000 && lead < 1000 && mid < 10000 && tail < 1000 && last < 10
    ensures |FormatUid(study, lead, mid, tail, last)| <= 64
  {
    DecimalLength(study, 4);
    DecimalLength(lead, 3);
    DecimalLength(mid, 4);
    DecimalLength(tail, 3);
    DecimalLength(last, 1);
  }

  /** The SOP UID as written is invalid whenever `rand() % 1000` is 0. */
  lemma SopUidValid(a: nat, b: nat, c: nat, d: nat, e: nat)
    ensures ValidUid(SopUid(a, b, c, d, e)) <==> b % 1000 != 0
  {
    FormatUidValid(a % 10000, b % 1000, c % 10000, d % 1000, e % 10);
  }

  /** For instance, draws (0, 0, 10, 0, 0) give "1.2.276.0.7230010.3.1.4.342487148.0.0100.0",
      whose component "0100" starts with a zero. */
  lemma LeadingZeroUid()
    ensures !ValidUid(SopUid(0, 0, 10, 0, 0))
  {
    SopUidValid(0, 0, 10, 0, 0);
  }

  /** The SOP UID with the leading number of its run drawn from 1..999. */
  function CorrectedSopUid(a: nat, b: nat, c: nat, d: nat, e: nat): string {
    FormatUid(a % 10000, 1 + b % 999, c % 10000, d % 1000, e % 10)
  }

  /** The series UID with the leading number of its run drawn from 1..999. */
  function CorrectedSeriesUid(sop: string, b: nat, c: nat, d: nat, e: nat): string
    requires LastIndexOf(sop, '.') >= 0 && LastIndexOf(sop[..LastIndexOf(sop, '.')], '.') >= 0
  {
    ReplaceSuffix(sop, 1 + b % 999, c % 10000, d % 1000, e % 10)
  }

  /** The corrected UIDs are valid for every draw, and the series UID still shares the
      SOP UID's components up to the study number. */
  lemma CorrectedUidsValid(a: nat, b: nat, c: nat, d: nat, e: nat, b': nat, c': nat, d': nat, e': nat)
    ensures ValidUid(CorrectedSopUid(a, b, c, d, e))
    ensures var sop := CorrectedSopUid(a, b, c, d, e);
      LastIndexOf(sop, '.') >= 0 && LastIndexOf(sop[..LastIndexOf(sop, '.')], '.') >= 0 &&
      CorrectedSeriesUid(sop, b', c', d', e') == CorrectedSopUid(a, b', c', d', e') &&
      ValidUid(CorrectedSeriesUid(sop, b', c', d', e'))
  {
    FormatUidValid(a % 10000, 1 + b % 999, c % 10000, d % 1000, e % 10);
    FormatUidValid(a % 10000, 1 + b' % 999, c' % 10000, d' % 1000, e' % 10);
    ReplaceSuffixOfFormat(a % 10000, 1 + b % 999, c % 10000, d % 1000, e % 10, 1 + b' % 999, c' % 10000, d' % 1000, e' % 10);
  }
}
