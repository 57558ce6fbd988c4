/** What the nm listing does with a symbol list, branch by branch. */
module NmSpec {
  import opened Bytes
  import opened Layout
  import opened ParseSpec
  import opened Lists

  // ----- names -----

  /** strcmp as the difference of the first differing bytes; the end counts as a NUL byte. */
  function Strcmp(a: seq<byte>, b: seq<byte>): (d: int)
    ensures -255 <= d <= 255
  {
    if a == [] then (if b == [] then 0 else -b[0])
    else if b == [] then a[0]
    else if a[0] != b[0] then a[0] - b[0]
    else Strcmp(a[1..], b[1..])
  }

  /** int converted to (signed) char. */
  function ToChar(d: int): int
  {
    var u := d % 256;
    if u < 128 then u else u - 256
  }

  /** strcmp_nm: strcmp squeezed into a char. */
  function StrcmpNm(a: seq<byte>, b: seq<byte>): int
  {
    ToChar(Strcmp(a, b))
  }

  /** The initial minimum of each round, "\x7f". */
  const SENTINEL: seq<byte> := [127]

  /** What the listing needs to read a symbol: class, buffer, and offset of the string table. */
  datatype Ctx = Ctx(c: Class, m: seq<byte>, strOff: nat)

  /** The symbol's entry and its NUL-terminated name lie in the buffer. */
  predicate Resolved(x: Ctx, s: SymRef)
  {
    && x.strOff < x.c.Modulus()
    && s.sym_offset + x.c.SymSize() <= |x.m|
    && AddW(x.c, SymAt(x.c, x.m, s.sym_offset).name, x.strOff) <= |x.m|
    && CStr(x.m, AddW(x.c, SymAt(x.c, x.m, s.sym_offset).name, x.strOff)).Some?
  }

  predicate AllResolved(x: Ctx, s: seq<SymRef>)
  {
    forall i :: 0 <= i < |s| ==> Resolved(x, s[i])
  }

  /** The name as read through st_name. */
  function Key(x: Ctx, s: SymRef): seq<byte>
    requires Resolved(x, s)
  {
    CStr(x.m, AddW(x.c, SymAt(x.c, x.m, s.sym_offset).name, x.strOff)).value
  }

  /** STT_SECTION and STT_FILE symbols are not listed. */
  predicate Hidden(x: Ctx, s: SymRef)
    requires Resolved(x, s)
  {
    SymAt(x.c, x.m, s.sym_offset).info % 16 in {STT_SECTION, STT_FILE}
  }

  // ----- the first filter -----

  /** Drop the hidden symbols in front. */
  function DropHidden(x: Ctx, s: seq<SymRef>): (r: seq<SymRef>)
    requires AllResolved(x, s)
    ensures AllResolved(x, r) && |r| <= |s|
    ensures r != [] ==> !Hidden(x, r[0])
  {
    if s != [] && Hidden(x, s[0]) then DropHidden(x, s[1..]) else s
  }

  /**
   * The sweep over the rest.  After a deletion it steps onto the entry behind the deleted
   * one without testing it; None when there is no such entry and the null pointer is followed.
   */
  function Sweep(x: Ctx, s: seq<SymRef>): (r: Option<seq<SymRef>>)
    requires AllResolved(x, s)
    ensures r.Some? ==> AllResolved(x, r.value)
  {
    if |s| <= 1 then Some(s)
    else if Hidden(x, s[1]) then
      if |s| == 2 then None
      else
        match Sweep(x, s[2..])
        case None => None
        case Some(t) => Some([s[0]] + t)
    else
      match Sweep(x, s[1..])
      case None => None
      case Some(t) => Some([s[0]] + t)
  }

  // ----- the selection rounds -----

  /** min and indexSelected after the first n symbols of a round that starts with indexSelected == stale. */
  datatype Scan = Scan(min: seq<byte>, sel: nat)

  function ScanTo(x: Ctx, s: seq<SymRef>, n: nat, stale: nat): (r: Scan)
    requires AllResolved(x, s) && n <= |s|
    ensures r.sel < n || r.sel == stale
  {
    if n == 0 then Scan(SENTINEL, stale)
    else
      var prev := ScanTo(x, s, n - 1, stale);
      var cur := Key(x, s[n - 1]);
      if StrcmpNm(prev.min, cur) > 0 then Scan(cur, n - 1) else prev
  }

  /** All rounds, with the cases in which the selected index is stale. */
  function Rounds(x: Ctx, s: seq<SymRef>, stale: nat): seq<SymRef>
    requires AllResolved(x, s)
    decreases |s|
  {
    if s == [] then []
    else
      var sel := ScanTo(x, s, |s|, stale).sel;
      if sel < |s| then [s[sel]] + Rounds(x, RemoveAt(s, sel), sel)
      else Rounds(x, s[1..], sel)
  }

  // ----- the second filter and the whole listing -----

  function Visible(x: Ctx, s: seq<SymRef>): (r: seq<SymRef>)
    requires AllResolved(x, s)
    ensures AllResolved(x, r)
  {
    if s == [] then []
    else if Hidden(x, s[0]) then Visible(x, s[1..])
    else [s[0]] + Visible(x, s[1..])
  }

  lemma {:induction false} RoundsResolved(x: Ctx, s: seq<SymRef>, stale: nat)
    requires AllResolved(x, s)
    ensures AllResolved(x, Rounds(x, s, stale))
    decreases |s|
  {
    hide Resolved, Key, ScanTo;
    if s != [] {
      var sel := ScanTo(x, s, |s|, stale).sel;
      if sel < |s| {
        RoundsResolved(x, RemoveAt(s, sel), sel);
      } else {
        RoundsResolved(x, s[1..], sel);
      }
    }
  }

  function Tail<T>(s: seq<T>): seq<T>
  {
    if s == [] then [] else s[1..]
  }

  /** The list sort_symbols32 / 64 leaves; None when it follows a null pointer. */
  function SortedList(x: Ctx, syms: seq<SymRef>): Option<seq<SymRef>>
    requires AllResolved(x, syms)
  {
    match Sweep(x, DropHidden(x, Tail(syms)))
    case None => None
    case Some(z) => Some(Rounds(x, z, 0))
  }

  /** The symbols printed, in order. */
  function NmOutput(x: Ctx, syms: seq<SymRef>): Option<seq<SymRef>>
    requires AllResolved(x, syms)
  {
    match Sweep(x, DropHidden(x, Tail(syms)))
    case None => None
    case Some(z) => RoundsResolved(x, z, 0); Some(Visible(x, Rounds(x, z, 0)))
  }
}
