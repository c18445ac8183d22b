/** The frequency-domain kernel `G` that `CreateFilter` builds: a ramp up to the cutoff,
    zero above it, multiplied by a window for the windowed families, then mirrored
    into the upper half of the `2 * rows` bins. */
module FilterKernel {
  import opened CMath

  datatype Family = RamLak | SheppLogan | Hamming | Hanning | Cosine | Blackman

  /** The families that have their own case in the switch; every other family
      (Blackman is the only one) falls into the default case and gets a unity kernel. */
  predicate HasCase(f: Family) {
    f != Blackman
  }

  /** The window factor of a family at angular frequency `w` for a cutoff, as the
      windowed families define it with `sin` and `cos`. */
  type Window = (Family, real, real) -> real

  /** First bin cleared by the cutoff loop: `rows * cutoff + 1` truncated to an int. */
  function ZeroFrom(rows: nat, cutoff: real): int {
    Trunc(rows as real * cutoff + 1.0)
  }

  /** A cutoff of at most one starts the cleared bins no later than `rows + 1`; a
      non-negative cutoff starts them above bin 0. */
  lemma ZeroFromBounds(rows: nat, cutoff: real)
    ensures cutoff <= 1.0 ==> ZeroFrom(rows, cutoff) <= rows + 1
    ensures cutoff >= 0.0 ==> ZeroFrom(rows, cutoff) >= 1
  {
    if cutoff <= 1.0 {
      MulMonotone(cutoff, 1.0, rows as real);
      assert rows as real * cutoff <= rows as real;
    }
    if cutoff >= 0.0 {
      MulNonNegative(cutoff, rows as real);
      assert rows as real * cutoff >= 0.0;
    }
  }

  /** Bin `i` (0 <= i <= rows) after the ramp and the cutoff. */
  function Ramp(rows: nat, cutoff: real, i: nat): real
    requires rows > 0
  {
    if ZeroFrom(rows, cutoff) <= i then 0.0 else i as real / rows as real
  }

  /** Angular frequency of bin `i`. */
  function Omega(rows: nat, i: nat): real
    requires rows > 0
  {
    Pi * i as real / rows as real
  }

  /** Bin `i` (0 <= i <= rows) after the ramp, the cutoff and the window. */
  function Base(rows: nat, family: Family, cutoff: real, window: Window, i: nat): real
    requires rows > 0
  {
    if !HasCase(family) then 1.0
    else if family != RamLak && 1 <= i then Ramp(rows, cutoff, i) * window(family, Omega(rows, i), cutoff)
    else Ramp(rows, cutoff, i)
  }

  /** One step of the window loop: a ramp bin times the window is the windowed bin. */
  lemma WindowStep(g: real, rows: nat, family: Family, cutoff: real, window: Window, i: nat)
    requires rows > 0 && 1 <= i && HasCase(family) && family != RamLak
    requires g == Ramp(rows, cutoff, i)
    ensures Product(g, window(family, Omega(rows, i), cutoff)) == Base(rows, family, cutoff, window, i)
  {
  }

  /** Where the mirror loop starts: it continues from the index the preceding loop left,
      which is `rows + 1` after a window loop or the default case, but after the Ram-Lak
      case is wherever the cutoff loop stopped. */
  function MirrorFrom(rows: nat, family: Family, cutoff: real): int {
    if family == RamLak && ZeroFrom(rows, cutoff) > rows + 1 then ZeroFrom(rows, cutoff)
    else rows + 1
  }

  /** The kernel left in `G` by `CreateFilter`, given its previous contents `prev`:
      bins up to `rows` from the first phase, bins from `MirrorFrom` on mirrored, and
      bins in between (only when the mirror starts late) left as they were. */
  function Kernel(prev: seq<real>, rows: nat, family: Family, cutoff: real, window: Window): (g: seq<real>)
    requires rows > 0 && |prev| == 2 * rows
    ensures |g| == 2 * rows
    ensures forall t :: 0 <= t <= rows ==> g[t] == Base(rows, family, cutoff, window, t)
    ensures forall t :: rows < t < 2 * rows && t < MirrorFrom(rows, family, cutoff) ==> g[t] == prev[t]
    ensures forall t :: rows < t < 2 * rows && MirrorFrom(rows, family, cutoff) <= t ==>
      g[t] == Base(rows, family, cutoff, window, 2 * rows - t)
  {
    seq(2 * rows, t requires 0 <= t < 2 * rows =>
      if t <= rows then Base(rows, family, cutoff, window, t)
      else if t < MirrorFrom(rows, family, cutoff) then prev[t]
      else Base(rows, family, cutoff, window, 2 * rows - t))
  }

  /** Every family with its own case has no DC gain, and every bin from the cutoff bin
      up to `rows` is zero, in both halves of the kernel when the cutoff is at most one. */
  lemma KernelStopBand(prev: seq<real>, rows: nat, family: Family, cutoff: real, window: Window)
    requires rows > 0 && |prev| == 2 * rows
    requires HasCase(family)
    ensures Kernel(prev, rows, family, cutoff, window)[0] == 0.0
    ensures forall i :: 0 <= i && ZeroFrom(rows, cutoff) <= i <= rows ==>
      Kernel(prev, rows, family, cutoff, window)[i] == 0.0
    ensures cutoff <= 1.0 ==> forall t :: rows < t < 2 * rows && 2 * rows - t >= ZeroFrom(rows, cutoff) ==>
      Kernel(prev, rows, family, cutoff, window)[t] == 0.0
  {
    var g := Kernel(prev, rows, family, cutoff, window);
    if cutoff <= 1.0 {
      forall t | rows < t < 2 * rows && 2 * rows - t >= ZeroFrom(rows, cutoff)
        ensures g[t] == 0.0
      {
        ZeroFromBounds(rows, cutoff);
        assert MirrorFrom(rows, family, cutoff) <= t;
      }
    }
  }

  /** Below the cutoff the Ram-Lak kernel is the ramp `i / rows`. */
  lemma RamLakRamp(prev: seq<real>, rows: nat, cutoff: real, window: Window, i: nat)
    requires rows > 0 && |prev| == 2 * rows
    requires i <= rows && i < ZeroFrom(rows, cutoff)
    ensures Kernel(prev, rows, RamLak, cutoff, window)[i] == i as real / rows as real
  {
  }

  /** With a cutoff of at most one, or for any family but Ram-Lak, the upper half of
      the kernel mirrors the lower half. */
  lemma KernelSymmetric(prev: seq<real>, rows: nat, family: Family, cutoff: real, window: Window)
    requires rows > 0 && |prev| == 2 * rows
    requires family != RamLak || cutoff <= 1.0
    ensures forall t :: rows < t < 2 * rows ==>
      Kernel(prev, rows, family, cutoff, window)[t] == Kernel(prev, rows, family, cutoff, window)[2 * rows - t]
  {
    ZeroFromBounds(rows, cutoff);
    assert MirrorFrom(rows, family, cutoff) == rows + 1;
  }

  /** A Ram-Lak kernel with a cutoff above one does not mirror the bins between `rows`
      and the cutoff bin: they keep whatever `G` held before. */
  lemma RamLakLateMirror(prev: seq<real>, rows: nat, cutoff: real, window: Window)
    requires rows > 0 && |prev| == 2 * rows
    requires ZeroFrom(rows, cutoff) > rows + 1
    ensures forall t :: rows < t < 2 * rows && t < ZeroFrom(rows, cutoff) ==>
      Kernel(prev, rows, RamLak, cutoff, window)[t] == prev[t]
  {
  }

  /** The family without a case gets the unity kernel: no filtering at all. */
  lemma UnlistedFamilyIsUnity(prev: seq<real>, rows: nat, family: Family, cutoff: real, window: Window)
    requires rows > 0 && |prev| == 2 * rows
    requires !HasCase(family)
    ensures forall t :: 0 <= t < 2 * rows ==> Kernel(prev, rows, family, cutoff, window)[t] == 1.0
  {
  }
}
