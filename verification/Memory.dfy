/** The memory of the virtual machine: four segments that stand for one flat address space of
    pages. */
module Memory {
  import opened Bytes

  const PAGE := 0x1000
  const ZONE := 0x1_0000
  const INPUT_SIZE := 0x100_0000
  const STACK_HIGH := TWO_32 - 2 * ZONE - INPUT_SIZE
  const ARGS_LOW := TWO_32 - ZONE - INPUT_SIZE

  datatype Access = Inaccessible | ReadOnly | ReadWrite

  datatype Segment = Segment(address: nat, data: seq<byte>, access: Access) {
    function End(): nat {
      address + |data|
    }

    predicate Holds(x: nat) {
      address <= x < End()
    }
  }

  datatype Which = Stack | Rw | Ro | Args

  datatype Image = Image(ro: Segment, rw: Segment, stack: Segment, args: Segment) {
    function Of(w: Which): Segment {
      match w case Stack => stack case Rw => rw case Ro => ro case Args => args
    }

    function With(w: Which, s: Segment): Image {
      match w
      case Stack => this.(stack := s)
      case Rw => this.(rw := s)
      case Ro => this.(ro := s)
      case Args => this.(args := s)
    }
  }

  // ----------------------------------------------------------------------------- flat memory

  ghost predicate Readable(m: Image, x: nat) {
    exists w: Which :: m.Of(w).Holds(x) && m.Of(w).access != Inaccessible
  }

  ghost predicate Writable(m: Image, x: nat) {
    exists w: Which :: m.Of(w).Holds(x) && m.Of(w).access == ReadWrite
  }

  /** The segment an address belongs to. */
  function Owner(m: Image, x: nat): (r: Option<Which>)
    ensures r.Some? ==> m.Of(r.value).Holds(x)
    ensures r.None? ==> forall w: Which :: !m.Of(w).Holds(x)
  {
    if m.stack.Holds(x) then Some(Stack)
    else if m.rw.Holds(x) then Some(Rw)
    else if m.ro.Holds(x) then Some(Ro)
    else if m.args.Holds(x) then Some(Args)
    else None
  }

  /** The octet at an address, or nothing outside every segment. */
  function OctetAt(m: Image, x: nat): Option<byte> {
    match Owner(m, x)
    case Some(w) => Some(m.Of(w).data[x - m.Of(w).address])
    case None => None
  }

  predicate Apart(s: Segment, t: Segment) {
    s.End() < t.address || t.End() < s.address
  }

  /** Whole pages above the first zone and below 2^63, with a gap between every two segments. */
  predicate Laid(m: Image) {
    && (forall w: Which :: m.Of(w).address % PAGE == 0 && |m.Of(w).data| % PAGE == 0)
    && (forall w: Which :: ZONE <= m.Of(w).address && m.Of(w).End() < TWO_64 / 2)
    && (forall v: Which, w: Which :: v != w ==> Apart(m.Of(v), m.Of(w)))
  }

  // --------------------------------------------------------------------------- one access

  predicate Covers(s: Segment, a: nat, n: nat) {
    s.address <= a && a + n <= s.End()
  }

  /** The segment that holds a whole range, searched for in the order of the code. */
  function Locate(m: Image, a: nat, n: nat): (r: Option<Which>)
    ensures r.Some? ==> Covers(m.Of(r.value), a, n)
    ensures r.None? ==> forall w: Which :: !Covers(m.Of(w), a, n)
  {
    if Covers(m.stack, a, n) then Some(Stack)
    else if Covers(m.rw, a, n) then Some(Rw)
    else if Covers(m.ro, a, n) then Some(Ro)
    else if Covers(m.args, a, n) then Some(Args)
    else None
  }

  function AccessOf(m: Image, x: nat): Access {
    match Owner(m, x) case Some(w) => m.Of(w).access case None => Inaccessible
  }

  /** Whether an access that needs writing, or only reading, is allowed. */
  predicate Allows(access: Access, write: bool) {
    if write then access == ReadWrite else access != Inaccessible
  }

  /** `Forbidden` and `Lost` are the panics. `Crash` is a slice past the end of a segment, which the
      runtime stops. */
  datatype Failure = Forbidden | Crash | Fault(address: nat) | Lost

  /** The first page from `p` to `last` that does not allow the access. */
  function FirstFault(m: Image, p: nat, last: nat, write: bool): Failure
    decreases last + 1 - p
  {
    if p > last then Lost
    else if !Allows(AccessOf(m, p * PAGE), write) then Fault(p * PAGE)
    else FirstFault(m, p + 1, last, write)
  }

  /** The range passes 2^64, and its wrapped end is mistaken for one inside the segment. */
  predicate WrapsInto(s: Segment, a: nat, n: nat) {
    s.address <= a && (a + n) % TWO_64 <= s.End()
  }

  /** Why an access fails, or nothing when it goes through. */
  function Check(m: Image, a: nat, n: nat, write: bool): Option<Failure> {
    if a < ZONE then Some(Forbidden)
    else if a + n >= TWO_64 then
      Some(if WrapsInto(m.stack, a, n) || WrapsInto(m.rw, a, n) || WrapsInto(m.ro, a, n) || WrapsInto(m.args, a, n)
           then Crash
           else FirstFault(m, a / PAGE, (a + n) % TWO_64 / PAGE, write))
    else
      var access := match Locate(m, a, n) case Some(w) => m.Of(w).access case None => Inaccessible;
      if Allows(access, write) then None
      else Some(FirstFault(m, a / PAGE, (a + n) / PAGE, write))
  }

  lemma CheckedIsLocated(m: Image, a: nat, n: nat, write: bool)
    requires Check(m, a, n, write).None?
    ensures Locate(m, a, n).Some? && Allows(m.Of(Locate(m, a, n).value).access, write)
    ensures Covers(m.Of(Locate(m, a, n).value), a, n)
  {
  }

  /** The octets a successful read delivers. */
  function Loaded(m: Image, a: nat, n: nat): (r: seq<byte>)
    requires Check(m, a, n, false).None?
    ensures |r| == n
  {
    var s := m.Of(Locate(m, a, n).value);
    s.data[a - s.address..a - s.address + n]
  }

  function Overwritten(s: Segment, a: nat, data: seq<byte>): (r: Segment)
    requires Covers(s, a, |data|)
    ensures r.address == s.address && r.access == s.access && |r.data| == |s.data|
    ensures forall i :: 0 <= i < |s.data| ==>
              r.data[i] == if a <= s.address + i < a + |data| then data[s.address + i - a] else s.data[i]
  {
    var k := a - s.address;
    s.(data := s.data[..k] + data + s.data[k + |data|..])
  }

  /** The memory after a successful write. */
  function Stored(m: Image, a: nat, data: seq<byte>): Image
    requires Check(m, a, |data|, true).None?
  {
    var w := Locate(m, a, |data|).value;
    m.With(w, Overwritten(m.Of(w), a, data))
  }

  // ---------------------------------------------------------------- segments refine flat memory

  predicate Within(x: nat, a: nat, n: nat) {
    a <= x < a + n
  }

  ghost predicate Permits(m: Image, x: nat, write: bool) {
    if write then Writable(m, x) else Readable(m, x)
  }

  /** In a laid-out memory an address has one owner. */
  lemma OneOwner(m: Image, x: nat, w: Which)
    requires Laid(m) && m.Of(w).Holds(x)
    ensures Owner(m, x) == Some(w)
  {
    var o := Owner(m, x).value;
    assert o == w || Apart(m.Of(o), m.Of(w));
  }

  lemma PermitsIsAccess(m: Image, x: nat, write: bool)
    requires Laid(m)
    ensures Permits(m, x, write) <==> Allows(AccessOf(m, x), write)
  {
    if Permits(m, x, write) {
      var w :| m.Of(w).Holds(x) && Allows(m.Of(w).access, write);
      OneOwner(m, x, w);
    }
  }

  /** A range whose every address is permitted lies in one segment. */
  lemma {:induction false} PermittedRange(m: Image, a: nat, n: nat, write: bool) returns (w: Which)
    requires Laid(m) && n > 0
    requires forall x :: Within(x, a, n) ==> Permits(m, x, write)
    ensures Covers(m.Of(w), a, n) && Allows(m.Of(w).access, write)
  {
    if n == 1 {
      assert Within(a, a, n);
      w :| m.Of(w).Holds(a) && Allows(m.Of(w).access, write);
    } else {
      forall x | Within(x, a, n - 1) ensures Permits(m, x, write) {
        assert Within(x, a, n);
      }
      w := PermittedRange(m, a, n - 1, write);
      assert Within(a + n - 1, a, n);
      var v :| m.Of(v).Holds(a + n - 1) && Allows(m.Of(v).access, write);
      assert v == w || Apart(m.Of(v), m.Of(w));
    }
  }

  /** Two segments of a laid-out memory do not cover the same non-empty range. */
  lemma CoveredOnce(m: Image, a: nat, n: nat, w: Which)
    requires Laid(m) && n > 0 && Covers(m.Of(w), a, n)
    ensures Locate(m, a, n) == Some(w)
  {
    var o := Locate(m, a, n).value;
    assert o == w || Apart(m.Of(o), m.Of(w));
  }

  /** A non-empty access goes through exactly when every address in its range permits it. */
  lemma AccessExactlyWhen(m: Image, a: nat, n: nat, write: bool)
    requires Laid(m) && n > 0 && a + n < TWO_64
    ensures Check(m, a, n, write).None? <==> forall x :: Within(x, a, n) ==> Permits(m, x, write)
  {
    assert forall w: Which :: ZONE <= m.Of(w).address;
    hide Laid, FirstFault;
    if Check(m, a, n, write).None? {
      CheckedIsLocated(m, a, n, write);
      var w := Locate(m, a, n).value;
      forall x | Within(x, a, n) ensures Permits(m, x, write) {
        assert m.Of(w).Holds(x);
      }
    } else if forall x :: Within(x, a, n) ==> Permits(m, x, write) {
      var w := PermittedRange(m, a, n, write);
      CoveredOnce(m, a, n, w);
    }
  }

  lemma SamePage(x: nat, p: nat, e: nat)
    requires x / PAGE == p && e % PAGE == 0
    ensures e <= x <==> e <= p * PAGE
  {
  }

  /** Permission is a matter of whole pages. */
  lemma PageAccess(m: Image, x: nat)
    requires Laid(m)
    ensures AccessOf(m, x) == AccessOf(m, x / PAGE * PAGE)
  {
    var p := x / PAGE;
    forall w: Which ensures m.Of(w).Holds(x) <==> m.Of(w).Holds(p * PAGE) {
      SamePage(x, p, m.Of(w).address);
      assert m.Of(w).End() % PAGE == 0;
      SamePage(x, p, m.Of(w).End());
    }
    assert m.stack == m.Of(Stack) && m.rw == m.Of(Rw) && m.ro == m.Of(Ro) && m.args == m.Of(Args);
  }

  /** `x` is the lowest address of the range that does not permit the access. */
  ghost predicate Lowest(m: Image, a: nat, n: nat, write: bool, x: nat) {
    Within(x, a, n) && !Permits(m, x, write) && forall y: nat :: Within(y, a, n) && y < x ==> Permits(m, y, write)
  }

  lemma {:induction false} FindLowest(m: Image, a: nat, n: nat, write: bool) returns (x: nat)
    requires n > 0 && !forall y :: Within(y, a, n) ==> Permits(m, y, write)
    ensures Lowest(m, a, n, write, x)
    decreases n
  {
    hide Permits;
    if Permits(m, a, write) {
      var y :| Within(y, a, n) && !Permits(m, y, write);
      assert y != a && Within(y, a + 1, n - 1);
      x := FindLowest(m, a + 1, n - 1, write);
    } else {
      x := a;
    }
  }

  /** A range of less than 2^63 octets that passes 2^64 never goes through: it crashes or is lost. */
  lemma PastTheEndFails(m: Image, a: nat, n: nat, write: bool)
    requires ZONE <= a < TWO_64 <= a + n && n < TWO_64 / 2
    ensures Check(m, a, n, write) == Some(Crash) || Check(m, a, n, write) == Some(Lost)
  {
  }

  /** Addresses below 2^16 are forbidden, and no others. A range that wraps past 2^64 is a slice past the end of some
      segment, if its wrapped end does not reach beyond that of one that starts below it. */
  lemma FailuresAre(m: Image, a: nat, n: nat, write: bool)
    requires a < TWO_64 && n < TWO_64 / 2
    ensures Check(m, a, n, write) == Some(Forbidden) <==> a < 0x1_0000
    ensures Check(m, a, n, write) == Some(Crash) <==>
            && a >= 0x1_0000 && a + n >= TWO_64
            && exists w: Which :: m.Of(w).address <= a && a + n - TWO_64 <= m.Of(w).address + |m.Of(w).data|
  {
    NeverForbidden(m, a / PAGE, if a + n >= TWO_64 then (a + n) % TWO_64 / PAGE else (a + n) / PAGE, write);
    hide FirstFault;
    if a + n >= TWO_64 {
      assert (a + n) % TWO_64 == a + n - TWO_64;
      assert WrapsInto(m.stack, a, n) <==> WrapsInto(m.Of(Stack), a, n);
      assert WrapsInto(m.rw, a, n) <==> WrapsInto(m.Of(Rw), a, n);
      assert WrapsInto(m.ro, a, n) <==> WrapsInto(m.Of(Ro), a, n);
      assert WrapsInto(m.args, a, n) <==> WrapsInto(m.Of(Args), a, n);
    }
  }

  lemma {:induction false} NeverForbidden(m: Image, p: nat, last: nat, write: bool)
    ensures FirstFault(m, p, last, write) != Forbidden && FirstFault(m, p, last, write) != Crash
    decreases last + 1 - p
  {
    hide AccessOf;
    if p <= last { NeverForbidden(m, p + 1, last, write); }
  }

  lemma {:induction false} FirstFaultIs(m: Image, p: nat, q: nat, last: nat, write: bool)
    requires p <= q <= last && !Allows(AccessOf(m, q * PAGE), write)
    requires forall r: nat :: p <= r < q ==> Allows(AccessOf(m, r * PAGE), write)
    ensures FirstFault(m, p, last, write) == Fault(q * PAGE)
    decreases q - p
  {
    if p < q { FirstFaultIs(m, p + 1, q, last, write); }
  }

  /** A failed access names the page of the lowest address that does not permit it. */
  lemma FaultIsLowest(m: Image, a: nat, n: nat, write: bool, x: nat)
    requires Laid(m) && n > 0 && ZONE <= a && a + n < TWO_64 && Lowest(m, a, n, write, x)
    ensures Check(m, a, n, write) == Some(Fault(x / PAGE * PAGE))
  {
    AccessExactlyWhen(m, a, n, write);
    hide Laid, Permits, AccessOf, Locate;
    var p, q, last := a / PAGE, x / PAGE, (a + n) / PAGE;
    PageAccess(m, x);
    PermitsIsAccess(m, x, write);
    forall r: nat | p <= r < q ensures Allows(AccessOf(m, r * PAGE), write) {
      PageBelow(m, a, n, write, x, r);
    }
    FirstFaultIs(m, p, q, last, write);
  }

  lemma PageBelow(m: Image, a: nat, n: nat, write: bool, x: nat, r: nat)
    requires Laid(m) && Lowest(m, a, n, write, x) && a / PAGE <= r < x / PAGE
    ensures Allows(AccessOf(m, r * PAGE), write)
  {
    hide Laid, Permits, AccessOf;
    var y := if a / PAGE == r then a else r * PAGE;
    assert Within(y, a, n) && y < x && y / PAGE == r;
    PermitsIsAccess(m, y, write);
    PageAccess(m, y);
  }

  /** A read delivers the octets of the flat memory. */
  lemma LoadedIsFlat(m: Image, a: nat, n: nat, i: nat)
    requires Laid(m) && Check(m, a, n, false).None? && i < n
    ensures OctetAt(m, a + i) == Some(Loaded(m, a, n)[i])
  {
    CheckedIsLocated(m, a, n, false);
    OneOwner(m, a + i, Locate(m, a, n).value);
  }

  lemma SameShape(m: Image, a: nat, data: seq<byte>, v: Which)
    requires Check(m, a, |data|, true).None?
    ensures var m' := Stored(m, a, data);
            && m'.Of(v).address == m.Of(v).address && m'.Of(v).access == m.Of(v).access
            && |m'.Of(v).data| == |m.Of(v).data|
    ensures v != Locate(m, a, |data|).value ==> Stored(m, a, data).Of(v) == m.Of(v)
    ensures v == Locate(m, a, |data|).value ==> Stored(m, a, data).Of(v) == Overwritten(m.Of(v), a, data)
  {
    var w := Locate(m, a, |data|).value;
    assert Covers(m.Of(w), a, |data|);
    var r := Overwritten(m.Of(w), a, data);
    assert r.address == m.Of(w).address && r.access == m.Of(w).access && |r.data| == |m.Of(w).data|;
    hide Overwritten;
  }

  lemma StoredKeepsLayout(m: Image, a: nat, data: seq<byte>)
    requires Laid(m) && Check(m, a, |data|, true).None?
    ensures Laid(Stored(m, a, data))
  {
    var m' := Stored(m, a, data);
    hide Stored, Check;
    forall v: Which
      ensures m'.Of(v).address == m.Of(v).address && |m'.Of(v).data| == |m.Of(v).data| {
      SameShape(m, a, data, v);
    }
  }

  /** A write changes exactly its range, and no permission. */
  lemma StoredIsFlat(m: Image, a: nat, data: seq<byte>, x: nat)
    requires Laid(m) && Check(m, a, |data|, true).None?
    ensures OctetAt(Stored(m, a, data), x) == if Within(x, a, |data|) then Some(data[x - a]) else OctetAt(m, x)
    ensures AccessOf(Stored(m, a, data), x) == AccessOf(m, x)
  {
    CheckedIsLocated(m, a, |data|, true);
    StoredKeepsLayout(m, a, data);
    var m' := Stored(m, a, data);
    var w := Locate(m, a, |data|).value;
    hide Laid, Check, Stored, Locate, Overwritten;
    match Owner(m, x) {
      case None =>
        forall v: Which ensures !m'.Of(v).Holds(x) { SameShape(m, a, data, v); }
      case Some(v) =>
        SameShape(m, a, data, v);
        OneOwner(m', x, v);
        if v == w {
          OverwrittenAt(m.Of(v), a, data, x);
        } else if Within(x, a, |data|) {
          OneOwner(m, x, w);
        }
    }
  }

  lemma OverwrittenAt(s: Segment, a: nat, data: seq<byte>, x: nat)
    requires Covers(s, a, |data|) && s.Holds(x)
    ensures Overwritten(s, a, data).data[x - s.address] == if Within(x, a, |data|) then data[x - a]
        else s.data[x - s.address]
  {
  }

  /** Reading back what was just written. */
  lemma ReadAfterWrite(m: Image, a: nat, data: seq<byte>)
    requires Laid(m) && data != [] && Check(m, a, |data|, true).None?
    ensures Check(Stored(m, a, data), a, |data|, false).None? && Loaded(Stored(m, a, data), a, |data|) == data
  {
    var m' := Stored(m, a, data);
    CheckedIsLocated(m, a, |data|, true);
    StoredKeepsLayout(m, a, data);
    var w := Locate(m, a, |data|).value;
    SameShape(m, a, data, w);
    CoveredOnce(m', a, |data|, w);
    assert Check(m', a, |data|, false).None? && |Loaded(m', a, |data|)| == |data|;
    hide Laid, Check, Stored, Locate, Overwritten, Loaded;
    forall i | 0 <= i < |data| ensures Loaded(m', a, |data|)[i] == data[i] {
      LoadedIsFlat(m', a, |data|, i);
      StoredIsFlat(m, a, data, a + i);
    }
  }

  // --------------------------------------------------------------------------------- the layout

  function AlignToPage(v: nat): (r: nat)
    ensures r % PAGE == 0 && v <= r < v + PAGE
  {
    if v % PAGE == 0 then v else (v + PAGE) / PAGE * PAGE
  }

  function AlignToZone(v: nat): (r: nat)
    ensures r % ZONE == 0 && v <= r < v + ZONE
  {
    if v % ZONE == 0 then v else (v + ZONE) / ZONE * ZONE
  }

  /** `data` followed by zeros up to `size`. */
  function Sized(data: seq<byte>, size: nat): (r: seq<byte>)
    requires |data| <= size
    ensures |r| == size && data <= r && forall i :: |data| <= i < size ==> r[i] == 0
  {
    data + seq(size - |data|, _ => 0)
  }

  /** The check on the sizes. It does not count the read-only data. */
  predicate Fits(rw: nat, stack: nat, pages: nat) {
    5 * ZONE + AlignToZone(rw + pages * PAGE) + AlignToZone(stack) + INPUT_SIZE <= TWO_32
  }

  function InitialImage(ro: seq<byte>, rw: seq<byte>, args: seq<byte>, stack: nat, pages: nat): Image
    requires Fits(|rw|, stack, pages)
  {
    Image(
      Segment(ZONE, Sized(ro, AlignToPage(|ro|)), ReadOnly),
      Segment(2 * ZONE + AlignToZone(|ro|), Sized(rw, AlignToPage(|rw|) + pages * PAGE), ReadWrite),
      Segment(STACK_HIGH - AlignToPage(stack), Sized([], AlignToPage(stack)), ReadWrite),
      Segment(ARGS_LOW, Sized(args, AlignToPage(|args|)), ReadOnly))
  }

  /** What memory holds at the start. Read-only data from 2^16 on; above it, from the next zone but one, the data of
      the program and `pages` pages of zeros, which can be written; zeros for a stack that ends 2 zones and 2^24 below
      2^32, which can be written too; and the arguments, read-only, one zone and 2^24 below 2^32. Everything is
      followed by zeros to the end of its page. */
  lemma InitialMeans(ro: seq<byte>, rw: seq<byte>, args: seq<byte>, stack: nat, pages: nat)
    requires Fits(|rw|, stack, pages)
    ensures var m := InitialImage(ro, rw, args, stack, pages);
            && m.ro.address == 0x1_0000 && m.ro.access == ReadOnly && IsPadded(ro, m.ro.data, PagesFor(|ro|))
            && m.rw.address == 0x2_0000 + 0x1_0000 * ZonesFor(|ro|) && m.rw.access == ReadWrite
            && IsPadded(rw, m.rw.data, PagesFor(|rw|) + pages)
            && m.stack.address == 0xFEFE_0000 - 0x1000 * PagesFor(stack) && m.stack.access == ReadWrite
            && IsPadded([], m.stack.data, PagesFor(stack))
            && m.args.address == 0xFEFF_0000 && m.args.access == ReadOnly
            && IsPadded(args, m.args.data, PagesFor(|args|))
  {
    AlignIs(|ro|); AlignIs(|rw|); AlignIs(stack); AlignIs(|args|);
    hide AlignToPage, AlignToZone, PagesFor, ZonesFor;
  }

  /** The octets are `data` and zeros, on `pages` pages. */
  predicate IsPadded(data: seq<byte>, octets: seq<byte>, pages: nat) {
    |octets| == 0x1000 * pages && data <= octets && forall i :: |data| <= i < |octets| ==> octets[i] == 0
  }

  function PagesFor(size: nat): nat {
    (size + 0xFFF) / 0x1000
  }

  function ZonesFor(size: nat): nat {
    (size + 0xFFFF) / 0x1_0000
  }

  /** The check counts five zones, the program's own data and heap, the stack, and 2^24 for the arguments. */
  lemma FitsMeans(rw: nat, stack: nat, pages: nat)
    ensures Fits(rw, stack, pages) <==>
            0x1_0000 * (5 + ZonesFor(rw + 0x1000 * pages) + ZonesFor(stack)) + 0x100_0000 <= 0x1_0000_0000
  {
    AlignIs(rw + pages * PAGE);
    AlignIs(stack);
    hide AlignToPage, AlignToZone, PagesFor, ZonesFor;
  }

  lemma AlignIs(v: nat)
    ensures AlignToPage(v) == 0x1000 * PagesFor(v) && AlignToZone(v) == 0x1_0000 * ZonesFor(v)
  {
  }

  /** For any sizes that pass the check, the segments are laid out as flat memory needs exactly
      when the heap, above the read-only data the check leaves out, ends below the stack. */
  lemma LaidOutExactlyWhen(ro: seq<byte>, rw: seq<byte>, args: seq<byte>, stack: nat, pages: nat)
    requires Fits(|rw|, stack, pages) && |ro| < TWO_32 / 2 && |args| < TWO_32
    ensures Laid(InitialImage(ro, rw, args, stack, pages)) <==>
            2 * ZONE + AlignToZone(|ro|) + AlignToPage(|rw|) + pages * PAGE < STACK_HIGH - AlignToPage(stack)
  {
    var m := InitialImage(ro, rw, args, stack, pages);
    InitialShape(ro, rw, args, stack, pages);
    InitialIsPaged(ro, rw, args, stack, pages);
    PageWithinZone(|ro|);
    AlignBounds(|ro|); AlignBounds(stack); AlignBounds(|rw|); AlignBounds(|args|);
    hide InitialImage, AlignToPage, AlignToZone, Fits, Paged, Laid;
    if m.rw.End() < m.stack.address {
      OrderedIsLaid(m);
    } else {
      NotLaid(m);
    }
  }

  lemma NotLaid(m: Image)
    requires !Apart(m.rw, m.stack)
    ensures !Laid(m)
  {
    assert m.rw == m.Of(Rw) && m.stack == m.Of(Stack);
  }

  lemma InitialShape(ro: seq<byte>, rw: seq<byte>, args: seq<byte>, stack: nat, pages: nat)
    requires Fits(|rw|, stack, pages)
    ensures AlignToPage(stack) < STACK_HIGH
    ensures var m := InitialImage(ro, rw, args, stack, pages);
            && m.ro.address == ZONE && |m.ro.data| == AlignToPage(|ro|)
            && m.rw.address == 2 * ZONE + AlignToZone(|ro|) && |m.rw.data| == AlignToPage(|rw|) + pages * PAGE
            && m.stack.address == STACK_HIGH - AlignToPage(stack) && |m.stack.data| == AlignToPage(stack)
            && m.args.address == ARGS_LOW && |m.args.data| == AlignToPage(|args|)
  {
    PageWithinZone(stack);
    AlignBounds(|rw| + pages * PAGE);
    hide AlignToPage, AlignToZone;
  }

  predicate Whole(x: nat) {
    x % PAGE == 0
  }

  predicate Paged(s: Segment) {
    Whole(s.address) && Whole(|s.data|)
  }

  lemma OrderedIsLaid(m: Image)
    requires Paged(m.ro) && Paged(m.rw) && Paged(m.stack) && Paged(m.args)
    requires ZONE <= m.ro.address && m.ro.End() < m.rw.address && m.rw.End() < m.stack.address
    requires m.stack.End() < m.args.address && m.args.End() < TWO_64 / 2
    ensures Laid(m)
  {
    forall v: Which, w: Which | v != w ensures Apart(m.Of(v), m.Of(w)) {
    }
    forall w: Which ensures Paged(m.Of(w)) && ZONE <= m.Of(w).address && m.Of(w).End() < TWO_64 / 2 {
    }
  }

  lemma AlignBounds(v: nat)
    ensures v <= AlignToPage(v) < v + PAGE && v <= AlignToZone(v) < v + ZONE
    ensures AlignToPage(v) % PAGE == 0 && AlignToZone(v) % ZONE == 0
  {
  }

  lemma ZonesArePages(x: nat)
    requires x % ZONE == 0
    ensures x % PAGE == 0
  {
    assert x == PAGE * (16 * (x / ZONE));
  }

  lemma LeastMultiple(a: nat, b: nat)
    requires a % PAGE == 0 && b % PAGE == 0 && a < b + PAGE
    ensures a <= b
  {
    assert a == PAGE * (a / PAGE) && b == PAGE * (b / PAGE);
  }

  lemma PageWithinZone(v: nat)
    ensures AlignToPage(v) <= AlignToZone(v)
  {
    AlignBounds(v);
    ZonesArePages(AlignToZone(v));
    hide AlignToPage, AlignToZone;
    LeastMultiple(AlignToPage(v), AlignToZone(v));
  }

  lemma PagesAdd(x: nat, y: nat)
    requires Whole(x) && Whole(y)
    ensures Whole(x + y) && (y <= x ==> Whole(x - y))
  {
    assert x == PAGE * (x / PAGE) && y == PAGE * (y / PAGE);
  }

  lemma Aligned(v: nat)
    ensures Whole(AlignToPage(v)) && Whole(AlignToZone(v))
  {
    AlignBounds(v);
    hide AlignToPage, AlignToZone;
    ZonesArePages(AlignToZone(v));
  }

  lemma Multiple(k: nat)
    ensures Whole(k * PAGE)
  {
  }

  lemma WholeConstants()
    ensures Whole(ZONE) && Whole(2 * ZONE) && Whole(STACK_HIGH) && Whole(ARGS_LOW)
  {
  }

  lemma InitialIsPaged(ro: seq<byte>, rw: seq<byte>, args: seq<byte>, stack: nat, pages: nat)
    requires Fits(|rw|, stack, pages)
    ensures var m := InitialImage(ro, rw, args, stack, pages);
        Paged(m.ro) && Paged(m.rw) && Paged(m.stack) && Paged(m.args)
  {
    hide InitialImage, AlignToPage, AlignToZone, Fits, Whole;
    InitialShape(ro, rw, args, stack, pages);
    WholeConstants();
    Aligned(|ro|); Aligned(stack); Aligned(|rw|); Aligned(|args|);
    PagesAdd(2 * ZONE, AlignToZone(|ro|));
    Multiple(pages);
    PagesAdd(AlignToPage(|rw|), pages * PAGE);
    PagesAdd(STACK_HIGH, AlignToPage(stack));
  }

  /** The sizes a program blob can carry, three octets or two each, always fit and are always laid
      out properly. */
  lemma BlobSizesAreLaidOut(ro: seq<byte>, rw: seq<byte>, args: seq<byte>, stack: nat, pages: nat)
    requires |ro| < 0x100_0000 && |rw| < 0x100_0000 && stack < 0x100_0000 && pages < TWO_16 && |args| <= INPUT_SIZE
    ensures Fits(|rw|, stack, pages) && Laid(InitialImage(ro, rw, args, stack, pages))
  {
    AlignBounds(|ro|); AlignBounds(stack); AlignBounds(|rw|); AlignBounds(|rw| + pages * PAGE);
    hide AlignToPage, AlignToZone;
    assert Fits(|rw|, stack, pages);
    LaidOutExactlyWhen(ro, rw, args, stack, pages);
  }

  /** Read-only data that the check does not count pushes the heap above the start of the stack. */
  lemma ReadOnlyOverStackExample()
    ensures Fits(0, 0x8F00_0000, 0) && !Laid(InitialImage(Sized([], 0x7000_0000), [], [], 0x8F00_0000, 0))
  {
    assert AlignToPage(0) == 0 && AlignToZone(0) == 0;
    assert AlignToPage(0x8F00_0000) == 0x8F00_0000 == AlignToZone(0x8F00_0000);
    assert AlignToZone(0x7000_0000) == 0x7000_0000;
    hide AlignToPage, AlignToZone;
    LaidOutExactlyWhen(Sized([], 0x7000_0000), [], [], 0x8F00_0000, 0);
  }

  // ------------------------------------------------------------------------------ the heap

  /** What asking for more heap gives: the memory and the end of the heap, or a page fault. */
  datatype Growth = Grown(image: Image, top: nat) | NoRoom(address: nat)

  /** The size of the new heap is the address of its end, rounded up to pages, so that it reaches
      further than that address. What was in it is lost. */
  function Sbrk(m: Image, size: nat): Growth {
    if size == 0 then Grown(m, m.rw.End())
    else
      var next := (m.rw.End() + size) % TWO_64;
      if next >= m.stack.address then NoRoom(next)
      else if next > m.rw.End() then
        Grown(m.(rw := m.rw.(data := Sized([], AlignToPage(next)))), m.rw.address + AlignToPage(next))
      else Grown(m, m.rw.End())
  }

  predicate InOrder(m: Image) {
    m.ro.End() < m.rw.address && m.rw.End() < m.stack.address && m.stack.End() < m.args.address
  }

  /** Whether asking for `size` octets gives a heap of a new size. */
  predicate Grows(m: Image, size: nat) {
    size > 0 && m.rw.End() < (m.rw.End() + size) % TWO_64 < m.stack.address
  }

  /** A heap that grows keeps the layout exactly when it ends below the stack, counting its start
      twice. */
  lemma GrownIsLaidExactlyWhen(m: Image, size: nat)
    requires Laid(m) && InOrder(m) && Grows(m, size)
    ensures Sbrk(m, size).Grown?
    ensures Laid(Sbrk(m, size).image) <==>
            m.rw.address + AlignToPage((m.rw.End() + size) % TWO_64) < m.stack.address
  {
    hide Laid, Sized;
    var after := Sbrk(m, size).image;
    var length := AlignToPage((m.rw.End() + size) % TWO_64);
    AlignBounds((m.rw.End() + size) % TWO_64);
    GrownShape(m, size);
    PagedParts(m);
    hide Sbrk, AlignToPage;
    if m.rw.address + length < m.stack.address {
      OrderedIsLaid(after);
    } else {
      NotLaid(after);
    }
  }

  lemma GrownShape(m: Image, size: nat)
    requires Grows(m, size)
    ensures Sbrk(m, size).Grown?
    ensures var after := Sbrk(m, size).image;
            && after == m.(rw := after.rw) && after.rw.address == m.rw.address
            && |after.rw.data| == AlignToPage((m.rw.End() + size) % TWO_64)
  {
    hide AlignToPage;
  }

  lemma PagedParts(m: Image)
    requires Laid(m)
    ensures Paged(m.ro) && Paged(m.rw) && Paged(m.stack) && Paged(m.args)
    ensures ZONE <= m.ro.address && m.args.End() < TWO_64 / 2
  {
    assert m.Of(Rw) == m.rw && m.Of(Stack) == m.stack && m.Of(Args) == m.args && m.Of(Ro) == m.ro;
  }

  /** Asking an empty program for almost all addresses below the stack is granted, and the heap runs
      into the stack. */
  lemma HeapOverStackExample()
    ensures Fits(0, 0, 0)
    ensures var m := InitialImage([], [], [], 0, 0);
            Laid(m) && Grows(m, 0xFEFB_0000) && !Laid(Sbrk(m, 0xFEFB_0000).image)
  {
    BlobSizesAreLaidOut([], [], [], 0, 0);
    InitialShape([], [], [], 0, 0);
    assert AlignToPage(0) == 0 && AlignToZone(0) == 0 && AlignToPage(0xFEFD_0000) == 0xFEFD_0000;
    var m := InitialImage([], [], [], 0, 0);
    hide AlignToPage, AlignToZone, InitialImage, Sized;
    assert InOrder(m) && m.rw.End() == 0x2_0000;
    GrownIsLaidExactlyWhen(m, 0xFEFB_0000);
  }

  /** What is at `x` in `b` follows from `a`: what is not writable is as it was, in permission and
      content, and neither read-only nor writable memory has become anything else. */
  ghost predicate KeptAt(a: Image, b: Image, x: nat) {
    && (AccessOf(b, x) != ReadWrite ==> AccessOf(a, x) == AccessOf(b, x) && OctetAt(b, x) == OctetAt(a, x))
    && (AccessOf(a, x) != Inaccessible ==> AccessOf(b, x) == AccessOf(a, x))
  }

  ghost predicate ReadOnlyKept(a: Image, b: Image) {
    forall x: nat :: KeptAt(a, b, x)
  }

  lemma GrowthKeepsReadOnly(m: Image, size: nat)
    requires Laid(m) && m.rw.access == ReadWrite && Sbrk(m, size).Grown? && Laid(Sbrk(m, size).image)
    ensures Sbrk(m, size).image.rw.access == ReadWrite && ReadOnlyKept(m, Sbrk(m, size).image)
  {
    var after := Sbrk(m, size).image;
    AlignBounds((m.rw.End() + size) % TWO_64);
    assert after.rw.address == m.rw.address && after.rw.End() >= m.rw.End();
    assert forall w: Which :: w != Rw ==> after.Of(w) == m.Of(w);
    assert m.Of(Rw) == m.rw && after.Of(Rw) == after.rw;
    hide AlignToPage, Sized, Sbrk, KeptAt;
    forall x: nat ensures KeptAt(m, after, x) { GrowthAt(m, after, x); }
  }

  lemma GrowthAt(m: Image, after: Image, x: nat)
    requires Laid(m) && Laid(after) && m.rw.access == ReadWrite == after.rw.access
    requires after.rw.address == m.rw.address && after.rw.End() >= m.rw.End()
    requires forall w: Which :: w != Rw ==> after.Of(w) == m.Of(w)
    ensures KeptAt(m, after, x)
  {
    hide Laid;
    match Owner(m, x) {
      case Some(w) =>
        assert after.Of(w).Holds(x);
        OneOwner(after, x, w);
      case None =>
        match Owner(after, x)
        case Some(w) => assert w == Rw;
        case None =>
    }
  }

  lemma StoredKeepsReadOnly(m: Image, a: nat, data: seq<byte>)
    requires Laid(m) && m.rw.access == ReadWrite && Check(m, a, |data|, true).None?
    ensures Laid(Stored(m, a, data)) && Stored(m, a, data).rw.access == ReadWrite
    ensures ReadOnlyKept(m, Stored(m, a, data))
  {
    StoredKeepsLayout(m, a, data);
    SameShape(m, a, data, Rw);
    hide Laid, Check, Stored, Locate, Overwritten, KeptAt;
    forall x: nat ensures KeptAt(m, Stored(m, a, data), x) { StoredAt(m, a, data, x); }
  }

  lemma StoredAt(m: Image, a: nat, data: seq<byte>, x: nat)
    requires Laid(m) && Check(m, a, |data|, true).None?
    ensures KeptAt(m, Stored(m, a, data), x)
  {
    StoredIsFlat(m, a, data, x);
    CheckedIsLocated(m, a, |data|, true);
    hide Laid, Check, Stored, Locate, OctetAt;
    if Within(x, a, |data|) { OneOwner(m, x, Locate(m, a, |data|).value); }
  }

  lemma ReadOnlyKeptTransitive(a: Image, b: Image, c: Image)
    requires ReadOnlyKept(a, b) && ReadOnlyKept(b, c)
    ensures ReadOnlyKept(a, c)
  {
    hide AccessOf, OctetAt;
    forall x: nat ensures KeptAt(a, c, x) { assert KeptAt(a, b, x) && KeptAt(b, c, x); }
  }

  // ------------------------------------------------------------------------------ in place

  class Region {
    const address: nat
    const data: array<byte>
    const access: Access

    constructor (address: nat, data: array<byte>, access: Access)
      ensures this.address == address && this.data == data && this.access == access
    {
      this.address, this.data, this.access := address, data, access;
    }

    function Value(): Segment
      reads data
    {
      Segment(address, data[..], access)
    }
  }

  method CopySized(data: seq<byte>, size: nat) returns (dst: array<byte>)
    requires |data| <= size
    ensures fresh(dst) && dst[..] == Sized(data, size)
  {
    dst := new byte[size](_ => 0);
    for i := 0 to |data|
      invariant dst[..i] == data[..i]
      invariant forall k :: |data| <= k < size ==> dst[k] == 0
    {
      dst[i] := data[i];
      assert dst[..i + 1] == dst[..i] + [dst[i]];
    }
  }

  class Memory {
    const ro: Region
    const rw: Region
    const stack: Region
    const args: Region

    ghost predicate Valid() {
      && ro.data != rw.data && ro.data != stack.data && ro.data != args.data
      && rw.data != stack.data && rw.data != args.data && stack.data != args.data
    }

    ghost function Buffers(): set<array<byte>> {
      {ro.data, rw.data, stack.data, args.data}
    }

    function Value(): Image
      reads ro.data, rw.data, stack.data, args.data
    {
      Image(ro.Value(), rw.Value(), stack.Value(), args.Value())
    }

    constructor (ro: Region, rw: Region, stack: Region, args: Region)
      ensures this.ro == ro && this.rw == rw && this.stack == stack && this.args == args
    {
      this.ro, this.rw, this.stack, this.args := ro, rw, stack, args;
    }

    method GetAccess(page: nat) returns (r: Access)
      ensures r == AccessOf(Value(), page * PAGE)
    {
      var address := page * PAGE;
      if address >= stack.address && address < stack.address + stack.data.Length {
        return stack.access;
      } else if address >= rw.address && address < rw.address + rw.data.Length {
        return rw.access;
      } else if address >= ro.address && address < ro.address + ro.data.Length {
        return ro.access;
      } else if address >= args.address && address < args.address + args.data.Length {
        return args.access;
      }
      r := Inaccessible;
    }

    /** The region that holds a whole range. */
    method Find(address: nat, n: nat) returns (r: Option<Region>, ghost w: Option<Which>)
      ensures w == Locate(Value(), address, n) && (r.Some? <==> w.Some?)
      ensures w.Some? ==> Value().Of(w.value) == r.value.Value()
      ensures w.Some? ==> r.value == (match w.value case Stack => stack case Rw => rw case Ro => ro case Args => args)
    {
      if address >= stack.address && address + n <= stack.address + stack.data.Length {
        return Some(stack), Some(Stack);
      } else if address >= rw.address && address + n <= rw.address + rw.data.Length {
        return Some(rw), Some(Rw);
      } else if address >= ro.address && address + n <= ro.address + ro.data.Length {
        return Some(ro), Some(Ro);
      } else if address >= args.address && address + n <= args.address + args.data.Length {
        return Some(args), Some(Args);
      }
      r, w := None, None;
    }

    method FindFault(address: nat, end: nat, write: bool) returns (r: Failure)
      ensures r == FirstFault(Value(), address / PAGE, end / PAGE, write)
    {
      hide AccessOf;
      var last := end / PAGE;
      var i := address / PAGE;
      while i <= last
        invariant FirstFault(Value(), address / PAGE, last, write) == FirstFault(Value(), i, last, write)
      {
        var access := GetAccess(i);
        if !Allows(access, write) { return Fault(i * PAGE); }
        i := i + 1;
      }
      r := Lost;
    }

    /** What becomes of a range that passes 2^64. */
    method FindWrapped(address: nat, n: nat, write: bool) returns (r: Failure)
      requires ZONE <= address && address + n >= TWO_64
      ensures Check(Value(), address, n, write) == Some(r)
    {
      hide FirstFault;
      var end := (address + n) % TWO_64;
      if address >= stack.address && end <= stack.address + stack.data.Length { return Crash; }
      if address >= rw.address && end <= rw.address + rw.data.Length { return Crash; }
      if address >= ro.address && end <= ro.address + ro.data.Length { return Crash; }
      if address >= args.address && end <= args.address + args.data.Length { return Crash; }
      r := FindFault(address, end, write);
    }

    method Read(address: nat, into: array<byte>) returns (e: Option<Failure>)
      requires into !in Buffers()
      modifies into
      ensures Value() == old(Value())
      ensures e == Check(Value(), address, into.Length, false)
      ensures e.None? ==> into[..] == Loaded(Value(), address, into.Length)
      ensures e.Some? ==> into[..] == old(into[..])
    {
      hide FirstFault, Locate;
      if address < ZONE { return Some(Forbidden); }
      if address + into.Length >= TWO_64 {
        var wrapped := FindWrapped(address, into.Length, false);
        return Some(wrapped);
      }
      var region, w := Find(address, into.Length);
      if region.None? || region.value.access == Inaccessible {
        var fault := FindFault(address, address + into.Length, false);
        return Some(fault);
      }
      CheckedIsLocated(Value(), address, into.Length, false);
      var k := address - region.value.address;
      for i := 0 to into.Length
        invariant into[..i] == region.value.data[k..k + i]
      {
        into[i] := region.value.data[k + i];
        assert into[..i + 1] == into[..i] + [into[i]];
      }
      e := None;
    }

    method Write(address: nat, data: seq<byte>) returns (e: Option<Failure>)
      requires Valid()
      modifies ro.data, rw.data, stack.data, args.data
      ensures e == Check(old(Value()), address, |data|, true)
      ensures e.None? ==> Value() == Stored(old(Value()), address, data)
      ensures e.Some? ==> Value() == old(Value())
    {
      hide FirstFault, Locate;
      if address < ZONE { return Some(Forbidden); }
      if address + |data| >= TWO_64 {
        var wrapped := FindWrapped(address, |data|, true);
        return Some(wrapped);
      }
      var region, w := Find(address, |data|);
      if region.None? || region.value.access != ReadWrite {
        var fault := FindFault(address, address + |data|, true);
        return Some(fault);
      }
      CheckedIsLocated(Value(), address, |data|, true);
      CopyInto(region.value.data, address - region.value.address, data);
      e := None;
    }
  }

  method CopyInto(dst: array<byte>, k: nat, data: seq<byte>)
    requires k + |data| <= dst.Length
    modifies dst
    ensures dst[..] == old(dst[..k]) + data + old(dst[k + |data|..])
  {
    for i := 0 to |data|
      invariant dst[..k] == old(dst[..k]) && dst[k + i..] == old(dst[k + i..])
      invariant dst[k..k + i] == data[..i]
    {
      dst[k + i] := data[i];
      assert dst[k..k + i + 1] == dst[k..k + i] + [data[i]];
    }
    assert dst[..] == dst[..k] + dst[k..k + |data|] + dst[k + |data|..];
  }

  method InitializeMemory(ro: seq<byte>, rw: seq<byte>, args: seq<byte>, stack: nat,
                          pages: nat) returns (r: Option<Memory>)
    ensures r.Some? <==> Fits(|rw|, stack, pages)
    ensures r.Some? ==> r.value.Valid() && r.value.Value() == InitialImage(ro, rw, args, stack, pages)
  {
    hide Sized;
    if 5 * ZONE + AlignToZone(|rw| + pages * PAGE) + AlignToZone(stack) + INPUT_SIZE > TWO_32 {
      return None;
    }
    PageWithinZone(stack);
    var stackSize := AlignToPage(stack);
    var roData := CopySized(ro, AlignToPage(|ro|));
    var rwData := CopySized(rw, AlignToPage(|rw|) + pages * PAGE);
    var stackData := CopySized([], stackSize);
    var argsData := CopySized(args, AlignToPage(|args|));
    var roRegion := new Region(ZONE, roData, ReadOnly);
    var rwRegion := new Region(2 * ZONE + AlignToZone(|ro|), rwData, ReadWrite);
    var stackRegion := new Region(STACK_HIGH - stackSize, stackData, ReadWrite);
    var argsRegion := new Region(ARGS_LOW, argsData, ReadOnly);
    var memory := new Memory(roRegion, rwRegion, stackRegion, argsRegion);
    r := Some(memory);
  }
}
