/**
 * The cursor decoders of nfs_v3.c, which print the results of NFSv3 replies
 * while they step over them, and the encodings (RFC 1813, RFC 4506) they read.
 */
module XdrCursor {
  import opened Printing
  import opened Words
  import opened Options
  import opened RpcHeader
  import Names

  /** A `u_int32_t *` into the packet, as a byte offset; None is NULL. */
  type Cursor = Option<int>

  type uint64 = x: int | 0 <= x < TWO32 * TWO32

  datatype Time = Time(secs: uint32, nsecs: uint32)

  datatype Fattr3 = Fattr3(ftype: uint32, mode: uint32, nlink: uint32, uid: uint32, gid: uint32,
                           size: uint64, used: uint64, rdev: uint32, rdev2: uint32,
                           fsid: uint64, fileid: uint64, atime: Time, mtime: Time, ctime: Time)

  /** What wcc_data tells about a file before the operation. */
  datatype PreOp = PreOp(size: uint64, mtime: Time, ctime: Time)

  const FATTR3_BYTES := 84
  const PRE_OP_BYTES := 24

  // ----- the printed text

  const DIGITS := "0123456789"

  /** `%u` */
  function Decimal(n: nat): string {
    if n < 10 then [DIGITS[n]] else Decimal(n / 10) + [DIGITS[n % 10]]
  }

  /** The effect of a precision: zeros in front up to the given number of digits. */
  function ZeroFilled(s: string, digits: nat): string
    decreases digits - |s|
  {
    if digits <= |s| then s else ZeroFilled("0" + s, digits)
  }

  /** Seconds and whole microseconds. */
  function TimeText(t: Time): string {
    Decimal(t.secs) + "." + ZeroFilled(Decimal(t.nsecs / 1000), 6) + " "
  }

  function NumberText(n: nat): string {
    Hex(n) + " "
  }

  /**
   * One more label, and the value behind it if the packet reaches far enough:
   * it ends `room` bytes behind the start of the value, and the decoder wants `need`.
   */
  function Entry(before: string, tag: string, text: string, room: int, need: nat): string {
    before + tag + (if need <= room then text else "")
  }

  /** The attributes, as far as they lie inside the packet, which ends `room` bytes behind their start. */
  function FattrText(v: Fattr3, room: int): string {
    var s := Entry("", "ftype ", NumberText(v.ftype), room, 0);
    var s := Entry(s, "mode ", NumberText(v.mode), room - 4, 0);
    var s := Entry(s, "nlink ", NumberText(v.nlink), room - 8, 0);
    var s := Entry(s, "uid ", NumberText(v.uid), room - 12, 0);
    var s := Entry(s, "gid ", NumberText(v.gid), room - 16, 0);
    var s := Entry(s, "size ", NumberText(v.size), room - 20, 4);
    var s := Entry(s, "used ", NumberText(v.used), room - 28, 4);
    var s := Entry(s, "rdev ", NumberText(v.rdev), room - 36, 0);
    var s := Entry(s, "rdev2 ", NumberText(v.rdev2), room - 40, 0);
    var s := Entry(s, "fsid ", NumberText(v.fsid), room - 44, 4);
    var s := Entry(s, "fileid ", NumberText(v.fileid), room - 52, 4);
    var s := Entry(s, "atime ", TimeText(v.atime), room - 60, 8);
    var s := Entry(s, "mtime ", TimeText(v.mtime), room - 68, 8);
    Entry(s, "ctime ", TimeText(v.ctime), room - 76, 8)
  }

  function PreOpText(v: PreOp, room: int): string {
    var s := Entry("", "pre-size ", NumberText(v.size), room, 4);
    var s := Entry(s, "pre-mtime ", TimeText(v.mtime), room - 8, 8);
    Entry(s, "pre-ctime ", TimeText(v.ctime), room - 16, 8)
  }

  // ----- the values in memory

  function Uint64At(m: Mem, p: int): uint64 {
    m.Word(p) * TWO32 + m.Word(p + 4)
  }

  function TimeAt(m: Mem, p: int): Time {
    Time(m.Word(p), m.Word(p + 4))
  }

  function FattrAt(m: Mem, p: int): Fattr3 {
    Fattr3(m.Word(p), m.Word(p + 4), m.Word(p + 8), m.Word(p + 12), m.Word(p + 16),
           Uint64At(m, p + 20), Uint64At(m, p + 28), m.Word(p + 36), m.Word(p + 40),
           Uint64At(m, p + 44), Uint64At(m, p + 52), TimeAt(m, p + 60), TimeAt(m, p + 68), TimeAt(m, p + 76))
  }

  function PreOpAt(m: Mem, p: int): PreOp {
    PreOp(Uint64At(m, p), TimeAt(m, p + 8), TimeAt(m, p + 16))
  }

  // ----- fields

  /** Not NULL, and not behind the end: what most decoders ask of a cursor. */
  predicate Alive(p: Cursor, e: int) {
    p.Some? && p.value <= e
  }

  /** `ntohl` of one word. The word may be the one at `e`: the test has one word of slack. */
  method PrintUint32(m: Mem, p: Cursor, e: int, print_: bool) returns (r: Cursor, out: string)
    ensures r == if Alive(p, e) then Some(p.value + 4) else None
    ensures out == if r.Some? && print_ then NumberText(m.Word(p.value)) else ""
  {
    out := "";
    if p == None || e < p.value { return None, out; }
    if print_ { out := NumberText(m.Word(p.value)); }
    r := Some(p.value + 4);
  }

  method PrintUint64(m: Mem, p: Cursor, e: int, print_: bool) returns (r: Cursor, out: string)
    ensures r == if p.Some? && p.value + 4 <= e then Some(p.value + 8) else None
    ensures out == if r.Some? && print_ then NumberText(Uint64At(m, p.value)) else ""
  {
    out := "";
    if p == None || e < p.value + 4 { return None, out; }
    if print_ {
      var hi, lo := m.Word(p.value), m.Word(p.value + 4);
      Names.Uint64Printed(hi, lo);
      out := Names.PrintUint64(hi, lo) + " ";
    }
    r := Some(p.value + 8);
  }

  method PrintTime(m: Mem, p: Cursor, e: int, print_: bool) returns (r: Cursor, out: string)
    ensures r == if p.Some? && p.value + 8 <= e then Some(p.value + 8) else None
    ensures out == if r.Some? && print_ then TimeText(TimeAt(m, p.value)) else ""
  {
    out := "";
    if p == None || e < p.value + 8 { return None, out; }
    if print_ { out := TimeText(Time(m.Word(p.value), m.Word(p.value + 4))); }
    r := Some(p.value + 8);
  }

  /**
   * The cursor stands at `at`, or it has become NULL on the way there because
   * the packet ends before `at`.
   */
  ghost predicate Reached(p: Cursor, at: int, e: int) {
    p == Some(at) || (p == None && e < at)
  }

  /** A label and a word. */
  method Field32(m: Mem, p: Cursor, e: int, print_: bool, tag: string, before: string, ghost at: int, ghost room: int)
    returns (r: Cursor, out: string)
    requires Reached(p, at, e) && room == e - at
    ensures Reached(r, at + 4, e) && (r.Some? <==> at <= e)
    ensures out == if print_ then Entry(before, tag, NumberText(m.Word(at)), room, 0) else before
  {
    var text;
    out := if print_ then before + tag else before;
    r, text := PrintUint32(m, p, e, print_);
    out := out + text;
  }

  /** A label and a double word. */
  method Field64(m: Mem, p: Cursor, e: int, print_: bool, tag: string, before: string, ghost at: int, ghost room: int)
    returns (r: Cursor, out: string)
    requires Reached(p, at, e) && room == e - at
    ensures Reached(r, at + 8, e) && (r.Some? <==> at + 4 <= e)
    ensures out == if print_ then Entry(before, tag, NumberText(Uint64At(m, at)), room, 4) else before
  {
    hide Uint64At;
    var text;
    out := if print_ then before + tag else before;
    r, text := PrintUint64(m, p, e, print_);
    out := out + text;
  }

  /** A label and a time. */
  method FieldTime(m: Mem, p: Cursor, e: int, print_: bool, tag: string, before: string, ghost at: int, ghost room: int)
    returns (r: Cursor, out: string)
    requires Reached(p, at, e) && room == e - at
    ensures Reached(r, at + 8, e) && (r.Some? <==> at + 8 <= e)
    ensures out == if print_ then Entry(before, tag, TimeText(TimeAt(m, at)), room, 8) else before
  {
    hide TimeText, TimeAt;
    var text;
    out := if print_ then before + tag else before;
    r, text := PrintTime(m, p, e, print_);
    out := out + text;
  }

  // ----- attributes

  /** The bytes `s` stand at the cursor, all of them before the end. */
  ghost predicate Encoded(m: Mem, p: Cursor, e: int, s: seq<byte>) {
    p.Some? && Holds(m, p.value, s) && p.value + |s| <= e
  }

  function AfterFattr3(p: Cursor, e: int): Cursor {
    if p.Some? && p.value + FATTR3_BYTES <= e then Some(p.value + FATTR3_BYTES) else None
  }

  /** What print_fattr3 prints, also where the packet is cut off. */
  function ShownFattr3(m: Mem, p: Cursor, e: int): string {
    if Alive(p, e) then FattrText(FattrAt(m, p.value), e - p.value) else ""
  }

  /**
   * print_fattr3: fourteen fields, 21 words. NULL is sticky, so the result is
   * not NULL exactly when all 21 words lie before the end, although the test
   * of every field but the times would accept less.
   */
  method PrintFattr3(m: Mem, p: Cursor, e: int, print_: bool) returns (newP: Cursor, out: string)
    ensures newP == AfterFattr3(p, e)
    ensures out == if print_ then ShownFattr3(m, p, e) else ""
  {
    hide NumberText, TimeText, Uint64At, TimeAt, Entry, Mem.Word;
    newP, out := p, "";
    if p == None || e < p.value { return None, out; }
    ghost var at, room := p.value, e - p.value;
    newP, out := Field32(m, newP, e, print_, "ftype ", out, at, room);
    newP, out := Field32(m, newP, e, print_, "mode ", out, at + 4, room - 4);
    newP, out := Field32(m, newP, e, print_, "nlink ", out, at + 8, room - 8);
    newP, out := Field32(m, newP, e, print_, "uid ", out, at + 12, room - 12);
    newP, out := Field32(m, newP, e, print_, "gid ", out, at + 16, room - 16);
    newP, out := Field64(m, newP, e, print_, "size ", out, at + 20, room - 20);
    newP, out := Field64(m, newP, e, print_, "used ", out, at + 28, room - 28);
    newP, out := Field32(m, newP, e, print_, "rdev ", out, at + 36, room - 36);
    newP, out := Field32(m, newP, e, print_, "rdev2 ", out, at + 40, room - 40);
    newP, out := Field64(m, newP, e, print_, "fsid ", out, at + 44, room - 44);
    newP, out := Field64(m, newP, e, print_, "fileid ", out, at + 52, room - 52);
    newP, out := FieldTime(m, newP, e, print_, "atime ", out, at + 60, room - 60);
    newP, out := FieldTime(m, newP, e, print_, "mtime ", out, at + 68, room - 68);
    newP, out := FieldTime(m, newP, e, print_, "ctime ", out, at + 76, room - 76);
  }

  function AfterPostOp(m: Mem, p: Cursor, e: int): Cursor {
    if !Alive(p, e) then None
    else if m.Word(p.value) != 0 then AfterFattr3(Some(p.value + 4), e)
    else Some(p.value + 4)
  }

  function ShownPostOp(m: Mem, p: Cursor, e: int): string {
    if Alive(p, e) && m.Word(p.value) != 0 then ShownFattr3(m, Some(p.value + 4), e) else ""
  }

  /** print_post_op_attr3. On encoded attributes, present or not, it stops at their end and shows them. */
  method PrintPostOpAttr3(m: Mem, p: Cursor, e: int, print_: bool) returns (r: Cursor, out: string)
    ensures r == AfterPostOp(m, p, e)
    ensures out == if print_ then ShownPostOp(m, p, e) else ""
    ensures forall attr :: Encoded(m, p, e, PostOpBytes(attr)) ==>
              r == Some(p.value + |PostOpBytes(attr)|) && out == if print_ then AttrText(attr) else ""
  {
    hide FattrText, PostOpBytes, AttrText, Mem.Word, Holds;
    forall attr | Encoded(m, p, e, PostOpBytes(attr))
      ensures AfterPostOp(m, p, e) == Some(p.value + |PostOpBytes(attr)|)
      ensures ShownPostOp(m, p, e) == AttrText(attr)
    {
      PostOpRoundTrip(m, p.value, e, attr);
    }
    if p == None || e < p.value { return None, ""; }
    if m.Word(p.value) != 0 {
      r, out := PrintFattr3(m, Some(p.value + 4), e, print_);
    } else {
      r, out := Some(p.value + 4), "";
    }
  }

  function AfterPreOp(p: Cursor, e: int): Cursor {
    if p.Some? && p.value + PRE_OP_BYTES <= e then Some(p.value + PRE_OP_BYTES) else None
  }

  method PrintPreOpAttr3(m: Mem, p: Cursor, e: int, print_: bool) returns (newP: Cursor, out: string)
    ensures newP == AfterPreOp(p, e)
    ensures out == if print_ && Alive(p, e) then PreOpText(PreOpAt(m, p.value), e - p.value) else ""
  {
    hide NumberText, TimeText, Uint64At, TimeAt, Entry;
    newP, out := p, "";
    if p == None || e < p.value { return None, out; }
    ghost var at, room := p.value, e - p.value;
    newP, out := Field64(m, newP, e, print_, "pre-size ", out, at, room);
    newP, out := FieldTime(m, newP, e, print_, "pre-mtime ", out, at + 8, room - 8);
    newP, out := FieldTime(m, newP, e, print_, "pre-ctime ", out, at + 16, room - 16);
  }

  /** Where print_wcc_data3 reads its second flag through NULL: the first part is announced but cut off. */
  predicate WccFaults(m: Mem, p: Cursor, e: int) {
    Alive(p, e) && m.Word(p.value) != 0 && e < p.value + 4 + PRE_OP_BYTES
  }

  /** The second flag of wcc_data. */
  function WccSecond(m: Mem, p: int): int {
    if m.Word(p) != 0 then p + 4 + PRE_OP_BYTES else p + 4
  }

  function AfterWcc(m: Mem, p: Cursor, e: int): Cursor
    requires !WccFaults(m, p, e)
  {
    if !Alive(p, e) then None
    else
      var q := WccSecond(m, p.value);
      if m.Word(q) != 0 then AfterFattr3(Some(q + 4), e) else Some(q + 4)
  }

  function ShownWcc(m: Mem, p: Cursor, e: int): string
    requires !WccFaults(m, p, e)
  {
    if !Alive(p, e) then ""
    else
      var q := WccSecond(m, p.value);
      (if m.Word(p.value) != 0 then PreOpText(PreOpAt(m, p.value + 4), e - p.value - 4) else "")
      + (if m.Word(q) != 0 then ShownFattr3(m, Some(q + 4), e) else "")
  }

  /** print_wcc_data3. `fault` tells that it dereferences NULL, which happens in exactly one situation. */
  method PrintWccData3(m: Mem, p: Cursor, e: int, print_: bool) returns (fault: bool, newP: Cursor, out: string)
    ensures fault <==> WccFaults(m, p, e)
    ensures !fault ==> newP == AfterWcc(m, p, e)
    ensures !fault ==> out == if print_ then ShownWcc(m, p, e) else ""
  {
    hide ShownFattr3, PreOpText, PreOpAt, Mem.Word;
    fault, newP, out := false, p, "";
    if p == None || e < p.value { return false, None, out; }
    var q := p.value;
    newP := Some(q + 4);
    if m.Word(q) != 0 {
      newP, out := PrintPreOpAttr3(m, newP, e, print_);
    }
    if newP == None { return true, None, out; }
    q := newP.value;
    newP := Some(q + 4);
    if m.Word(q) != 0 {
      var text;
      newP, text := PrintFattr3(m, newP, e, print_);
      out := out + text;
    }
  }

  // ----- file handles and names

  /** The end of the opaque data whose length word is at `p`. */
  function OpaqueEnd(m: Mem, p: int): int {
    p + 4 + 4 * RoundUp4(m.Word(p))
  }

  function AfterFh3(m: Mem, p: Cursor, e: int): Cursor {
    if p.Some? && p.value + 8 <= e && OpaqueEnd(m, p.value) <= e then Some(OpaqueEnd(m, p.value)) else None
  }

  /** `n` words, eight digits each. */
  function WordsText(m: Mem, p: int, n: nat): string {
    if n == 0 then "" else WordsText(m, p, n - 1) + Names.Padded(m.Word(p + 4 * (n - 1)), 8)
  }

  function ShownFh3(m: Mem, p: Cursor, e: int): string {
    if AfterFh3(m, p, e).Some? then WordsText(m, p.value + 4, RoundUp4(m.Word(p.value))) + " " else ""
  }

  method PrintFh3(m: Mem, p: Cursor, e: int, print_: bool) returns (r: Cursor, out: string)
    ensures r == AfterFh3(m, p, e)
    ensures out == if print_ then ShownFh3(m, p, e) else ""
  {
    hide Mem.Word;
    out := "";
    if p == None || e < p.value + 8 { return None, out; }
    var fhLen := m.Word(p.value);
    var q := p.value + 4;
    var nWords := fhLen / 4;
    if fhLen % 4 != 0 { nWords := nWords + 1; }
    if e < q + 4 * nWords { return None, out; }
    if print_ {
      var i := 0;
      while i < nWords
        invariant 0 <= i <= nWords
        invariant out == WordsText(m, q, i)
      {
        out := out + Names.Padded(m.Word(q + 4 * i), 8);
        i := i + 1;
      }
      out := out + " ";
    }
    r := Some(q + 4 * nWords);
  }

  /** What print_fn3 puts out: nothing, dots for a name that is cut off, or the name handed to print_string. */
  datatype NameOutput = Quiet | Dots | Name(bytes: seq<byte>)

  /** The length of a name rounded up to whole words in 32 bits: the last three lengths come out as zero. */
  function NameSpace(len: uint32): uint32 {
    Wrap(4 * RoundUp4(len))
  }

  lemma NameSpaceExact(len: uint32)
    ensures NameSpace(len) == if len <= 0xFFFF_FFFC then 4 * RoundUp4(len) else 0
    ensures len <= 4 * RoundUp4(len)
  {
    assert RoundUp4(len) <= 0x4000_0000;
    if 4 * RoundUp4(len) == TWO32 {
      assert NameSpace(len) == 0;
    } else {
      assert NameSpace(len) == 4 * RoundUp4(len);
    }
  }

  lemma NameSpaceCoded(len: uint32)
    ensures NameSpace(len) == if len % 4 != 0 then Wrap(len - len % 4 + 4) else len
  {
    assert 4 * RoundUp4(len) == if len % 4 != 0 then len - len % 4 + 4 else len;
  }

  function AfterFn3(m: Mem, p: Cursor, e: int): Cursor {
    if p.Some? && p.value + 4 <= e && p.value + 4 + NameSpace(m.Word(p.value)) <= e
    then Some(p.value + 4 + NameSpace(m.Word(p.value)))
    else None
  }

  method PrintFn3(m: Mem, p: Cursor, e: int, print_: bool) returns (r: Cursor, out: NameOutput)
    ensures r == AfterFn3(m, p, e)
    ensures out == if r.Some? then if print_ then Name(m.Slice(p.value + 4, m.Word(p.value))) else Quiet
                   else if p.Some? && p.value + 4 <= e then Dots else Quiet
  {
    hide Mem.Word, Mem.Slice, NameSpace;
    if p == None || e < p.value + 4 { return None, Quiet; }
    var len := m.Word(p.value);
    var str := p.value + 4;
    var total := len;
    if total % 4 != 0 {
      total := total - total % 4;
      total := Wrap(total + 4);
    }
    NameSpaceCoded(len);
    if e < str + total { return None, Dots; }
    out := if print_ then Name(m.Slice(str, len)) else Quiet;
    r := Some(str + total);
  }

  /**
   * In a packet, print_fn3 accepts a name that does not lie before the end if
   * and only if its length is one of the three that wrap, and there is room for
   * the length itself.
   */
  lemma NameInsideIff(m: Mem, p: int, e: int)
    requires e - p < 0xFFFF_FFFC
    ensures AfterFn3(m, Some(p), e).Some? && e < p + 4 + m.Word(p)
            <==> p + 4 <= e && m.Word(p) > 0xFFFF_FFFC
  {
    hide RoundUp4, NameSpace, Mem.Word;
    NameSpaceExact(m.Word(p));
  }

  // ----- LOOKUP results

  /** A handle whose length the length word can express. */
  type Handle3 = s: seq<byte> | |s| < TWO32

  /**
   * print_fh3, print_post_op_attr3 shown, print_post_op_attr3 not shown, one
   * after the other. On the encoded results of a LOOKUP the cursor stops at
   * their end, and the handle's bytes and the file's attributes are shown.
   */
  method PrintLookupOk(m: Mem, p: Cursor, e: int) returns (newP: Cursor, out: string)
    ensures newP == AfterPostOp(m, AfterPostOp(m, AfterFh3(m, p, e), e), e)
    ensures out == ShownFh3(m, p, e) + ShownPostOp(m, AfterFh3(m, p, e), e)
    ensures forall fh: Handle3, attr, dir :: Encoded(m, p, e, LookupBytes(fh, attr, dir)) ==>
              && newP == Some(p.value + |LookupBytes(fh, attr, dir)|)
              && out == BytesText(fh + Padding(|fh|)) + " " + AttrText(attr)
  {
    hide AfterFh3, ShownFh3, AfterPostOp, ShownPostOp, LookupBytes, BytesText, Padding, AttrText, Holds;
    forall fh: Handle3, attr, dir | Encoded(m, p, e, LookupBytes(fh, attr, dir))
      ensures AfterPostOp(m, AfterPostOp(m, AfterFh3(m, p, e), e), e)
              == Some(p.value + |LookupBytes(fh, attr, dir)|)
      ensures ShownFh3(m, p, e) + ShownPostOp(m, AfterFh3(m, p, e), e)
              == BytesText(fh + Padding(|fh|)) + " " + AttrText(attr)
    {
      LookupRoundTrip(m, p.value, e, fh, attr, dir);
    }
    var text;
    newP, out := PrintFh3(m, p, e, true);
    newP, text := PrintPostOpAttr3(m, newP, e, true);
    out := out + text;
    newP, text := PrintPostOpAttr3(m, newP, e, false);
  }

  // ----- encodings

  ghost function Hyper(n: uint64): seq<uint32> {
    [n / TWO32, n % TWO32]
  }

  ghost function TimeWords(t: Time): seq<uint32> {
    [t.secs, t.nsecs]
  }

  ghost function FattrWords(v: Fattr3): (s: seq<uint32>)
    ensures |s| == 21
  {
    [v.ftype, v.mode, v.nlink, v.uid, v.gid] + Hyper(v.size) + Hyper(v.used) + [v.rdev, v.rdev2]
    + Hyper(v.fsid) + Hyper(v.fileid) + TimeWords(v.atime) + TimeWords(v.mtime) + TimeWords(v.ctime)
  }

  ghost function PreOpWords(v: PreOp): (s: seq<uint32>)
    ensures |s| == 6
  {
    Hyper(v.size) + TimeWords(v.mtime) + TimeWords(v.ctime)
  }

  ghost function PostOpBytes(attr: Option<Fattr3>): (s: seq<byte>)
    ensures |s| == if attr.Some? then 88 else 4
  {
    match attr
    case None => BytesOf(0)
    case Some(v) => BytesOf(1) + WordBytes(FattrWords(v))
  }

  ghost function WccBytes(pre: Option<PreOp>, post: Option<Fattr3>): seq<byte> {
    (match pre case None => BytesOf(0) case Some(v) => BytesOf(1) + WordBytes(PreOpWords(v))) + PostOpBytes(post)
  }

  ghost function LookupBytes(fh: seq<byte>, attr: Option<Fattr3>, dir: Option<Fattr3>): seq<byte>
    requires |fh| < TWO32
  {
    (Opaque(fh) + PostOpBytes(attr)) + PostOpBytes(dir)
  }

  // ----- round trips

  lemma {:induction false} HoldsWords(m: Mem, off: int, ws: seq<uint32>)
    requires Holds(m, off, WordBytes(ws))
    ensures forall i :: 0 <= i < |ws| ==> m.Word(off + 4 * i) == ws[i]
    decreases |ws|
  {
    hide Holds, BytesOf, Mem.Word;
    if ws != [] {
      HoldsSplit(m, off, BytesOf(ws[0]), WordBytes(ws[1..]));
      HoldsWord(m, off, ws[0]);
      HoldsWords(m, off + 4, ws[1..]);
      forall i | 0 <= i < |ws| ensures m.Word(off + 4 * i) == ws[i] {
        if i > 0 {
          assert m.Word(off + 4 + 4 * (i - 1)) == ws[1..][i - 1];
        }
      }
    }
  }

  lemma HyperValue(n: uint64)
    ensures (n / TWO32) * TWO32 + n % TWO32 == n
  {
  }

  /** Attributes are read back as they were encoded. */
  lemma FattrRoundTrip(m: Mem, p: int, v: Fattr3)
    requires Holds(m, p, WordBytes(FattrWords(v)))
    ensures FattrAt(m, p) == v
  {
    hide Holds, WordBytes, Mem.Word;
    HoldsWords(m, p, FattrWords(v));
    var s := FattrWords(v);
    assert forall i :: 0 <= i < 21 ==> m.Word(p + 4 * i) == s[i];
    FattrFromWords(m, p, v, s);
  }

  lemma FattrFromWords(m: Mem, p: int, v: Fattr3, s: seq<uint32>)
    requires s == FattrWords(v) && forall i :: 0 <= i < 21 ==> m.Word(p + 4 * i) == s[i]
    ensures FattrAt(m, p) == v
  {
    hide Mem.Word;
    assert m.Word(p + 4 * 0) == s[0] && m.Word(p + 4 * 1) == s[1] && m.Word(p + 4 * 2) == s[2];
    assert m.Word(p + 4 * 3) == s[3] && m.Word(p + 4 * 4) == s[4] && m.Word(p + 4 * 5) == s[5];
    assert m.Word(p + 4 * 6) == s[6] && m.Word(p + 4 * 7) == s[7] && m.Word(p + 4 * 8) == s[8];
    assert m.Word(p + 4 * 9) == s[9] && m.Word(p + 4 * 10) == s[10] && m.Word(p + 4 * 11) == s[11];
    assert m.Word(p + 4 * 12) == s[12] && m.Word(p + 4 * 13) == s[13] && m.Word(p + 4 * 14) == s[14];
    assert m.Word(p + 4 * 15) == s[15] && m.Word(p + 4 * 16) == s[16] && m.Word(p + 4 * 17) == s[17];
    assert m.Word(p + 4 * 18) == s[18] && m.Word(p + 4 * 19) == s[19] && m.Word(p + 4 * 20) == s[20];
    HyperValue(v.size);
    HyperValue(v.used);
    HyperValue(v.fsid);
    HyperValue(v.fileid);
  }

  lemma PreOpRoundTrip(m: Mem, p: int, v: PreOp)
    requires Holds(m, p, WordBytes(PreOpWords(v)))
    ensures PreOpAt(m, p) == v
  {
    hide Holds, WordBytes, Mem.Word;
    HoldsWords(m, p, PreOpWords(v));
    var s := PreOpWords(v);
    assert m.Word(p + 4 * 0) == s[0] && m.Word(p + 4 * 1) == s[1] && m.Word(p + 4 * 2) == s[2];
    assert m.Word(p + 4 * 3) == s[3] && m.Word(p + 4 * 4) == s[4] && m.Word(p + 4 * 5) == s[5];
    HyperValue(v.size);
  }

  /** The text for optional attributes that lie wholly inside the packet. */
  function AttrText(attr: Option<Fattr3>): string {
    match attr
    case None => ""
    case Some(v) => FattrText(v, FATTR3_BYTES)
  }

  lemma FattrTextWhole(v: Fattr3, room: int)
    requires room >= FATTR3_BYTES
    ensures FattrText(v, room) == FattrText(v, FATTR3_BYTES)
  {
    hide NumberText, TimeText;
  }

  lemma PreOpTextWhole(v: PreOp, room: int)
    requires room >= PRE_OP_BYTES
    ensures PreOpText(v, room) == PreOpText(v, PRE_OP_BYTES)
  {
    hide NumberText, TimeText;
  }

  /** Every flag but zero announces attributes. */
  lemma PostOpAnyFlag(m: Mem, p: int, e: int, flag: uint32, v: Fattr3)
    requires flag != 0 && Holds(m, p, BytesOf(flag) + WordBytes(FattrWords(v))) && p + 88 <= e
    ensures AfterPostOp(m, Some(p), e) == Some(p + 88)
    ensures ShownPostOp(m, Some(p), e) == FattrText(v, 84)
  {
    hide Holds, BytesOf, WordBytes, FattrWords, FattrText, FattrAt, Mem.Word;
    HoldsSplit(m, p, BytesOf(flag), WordBytes(FattrWords(v)));
    HoldsWord(m, p, flag);
    FattrRoundTrip(m, p + 4, v);
    FattrTextWhole(v, e - p - 4);
  }

  lemma PostOpRoundTrip(m: Mem, p: int, e: int, attr: Option<Fattr3>)
    requires Holds(m, p, PostOpBytes(attr)) && p + |PostOpBytes(attr)| <= e
    ensures AfterPostOp(m, Some(p), e) == Some(p + |PostOpBytes(attr)|)
    ensures ShownPostOp(m, Some(p), e) == AttrText(attr)
  {
    hide Holds, BytesOf, WordBytes, FattrWords, FattrText, FattrAt, Mem.Word;
    match attr
    case None =>
      HoldsWord(m, p, 0);
    case Some(v) =>
      PostOpAnyFlag(m, p, e, 1, v);
  }

  /** wcc_data of both parts, of one, or of none is stepped over exactly, without reading through NULL. */
  lemma WccRoundTrip(m: Mem, p: int, e: int, pre: Option<PreOp>, post: Option<Fattr3>)
    requires Holds(m, p, WccBytes(pre, post)) && p + |WccBytes(pre, post)| <= e
    ensures !WccFaults(m, Some(p), e)
    ensures AfterWcc(m, Some(p), e) == Some(p + |WccBytes(pre, post)|)
    ensures ShownWcc(m, Some(p), e)
            == (if pre.Some? then PreOpText(pre.value, PRE_OP_BYTES) else "") + AttrText(post)
  {
    hide Holds, BytesOf, WordBytes, PostOpBytes, FattrText, FattrAt, PreOpAt, PreOpText, AttrText, PreOpWords, Mem.Word;
    match pre
    case None =>
      HoldsSplit(m, p, BytesOf(0), PostOpBytes(post));
      HoldsWord(m, p, 0);
      PostOpRoundTrip(m, p + 4, e, post);
    case Some(v) =>
      var first := BytesOf(1) + WordBytes(PreOpWords(v));
      HoldsSplit(m, p, first, PostOpBytes(post));
      HoldsSplit(m, p, BytesOf(1), WordBytes(PreOpWords(v)));
      HoldsWord(m, p, 1);
      PreOpRoundTrip(m, p + 4, v);
      PreOpTextWhole(v, e - p - 4);
      PostOpRoundTrip(m, p + |first|, e, post);
  }

  lemma HoldsPadded(m: Mem, off: int, body: seq<byte>)
    requires |body| < TWO32 && Holds(m, off, Opaque(body))
    ensures Holds(m, off + 4, body + Padding(|body|))
  {
    hide Holds, RoundUp4, BytesOf, Padding;
    assert Opaque(body) == BytesOf(|body|) + (body + Padding(|body|));
    HoldsSplit(m, off, BytesOf(|body|), body + Padding(|body|));
  }

  /** A file handle ends where its padding ends, if there is a second word for it in the packet. */
  lemma FhRoundTripIff(m: Mem, p: int, e: int, fh: seq<byte>)
    requires |fh| < TWO32 && Holds(m, p, Opaque(fh)) && p + |Opaque(fh)| <= e
    ensures AfterFh3(m, Some(p), e) == Some(p + |Opaque(fh)|) <==> fh != [] || p + 8 <= e
    ensures AfterFh3(m, Some(p), e).Some? ==> ShownFh3(m, Some(p), e) == BytesText(fh + Padding(|fh|)) + " "
  {
    hide Holds, Mem.Word, WordsText, BytesText, Opaque, Padding;
    HoldsOpaque(m, p, fh);
    HoldsPadded(m, p, fh);
    WordsAreBytes(m, p + 4, RoundUp4(|fh|), fh + Padding(|fh|));
  }

  /** A name ends where its padding ends, unless its length is one of the last three, and is found byte for byte. */
  lemma FnRoundTripIff(m: Mem, p: int, e: int, name: seq<byte>)
    requires |name| < TWO32 && Holds(m, p, Opaque(name)) && p + |Opaque(name)| <= e
    ensures AfterFn3(m, Some(p), e) == Some(p + |Opaque(name)|) <==> |name| <= 0xFFFF_FFFC
    ensures m.Slice(p + 4, m.Word(p)) == name
  {
    hide Mem.Word, NameSpace, RoundUp4, Opaque;
    HoldsOpaque(m, p, name);
    NameSpaceExact(|name|);
    var s := m.Slice(p + 4, |name|);
    forall i | 0 <= i < |name| ensures s[i] == name[i] {
      assert m.At(p + 4 + i) == name[i];
    }
  }

  /** The results of a successful LOOKUP are stepped over exactly and shown as they are, with or without attributes. */
  lemma LookupRoundTrip(m: Mem, p: int, e: int, fh: seq<byte>, attr: Option<Fattr3>, dir: Option<Fattr3>)
    requires |fh| < TWO32 && Holds(m, p, LookupBytes(fh, attr, dir)) && p + |LookupBytes(fh, attr, dir)| <= e
    ensures var q := AfterFh3(m, Some(p), e);
            && AfterPostOp(m, AfterPostOp(m, q, e), e) == Some(p + |LookupBytes(fh, attr, dir)|)
            && ShownFh3(m, Some(p), e) + ShownPostOp(m, q, e)
               == BytesText(fh + Padding(|fh|)) + " " + AttrText(attr)
  {
    hide Holds, Opaque, PostOpBytes, AfterFh3, AfterPostOp, ShownFh3, ShownPostOp, AttrText, BytesText, Mem.Word;
    HoldsSplit(m, p, Opaque(fh) + PostOpBytes(attr), PostOpBytes(dir));
    HoldsSplit(m, p, Opaque(fh), PostOpBytes(attr));
    FhRoundTripIff(m, p, e, fh);
    PostOpRoundTrip(m, p + |Opaque(fh)|, e, attr);
    PostOpRoundTrip(m, p + |Opaque(fh) + PostOpBytes(attr)|, e, dir);
  }

  // ----- a handle's words and its bytes

  /** Two digits for each byte. */
  function BytesText(s: seq<byte>): string {
    if s == [] then "" else BytesText(s[..|s| - 1]) + Names.Padded(s[|s| - 1], 2)
  }

  /** `a` with `k` more hexadecimal digits, those of `b`. */
  ghost function Digits(a: nat, b: nat, k: nat): nat {
    a * Names.Pow16(k) + b
  }

  lemma DigitsStep(a: nat, b: nat, k: nat)
    requires k > 0 && b < Names.Pow16(k)
    ensures b / 16 < Names.Pow16(k - 1)
    ensures Digits(a, b, k) / 16 == Digits(a, b / 16, k - 1) && Digits(a, b, k) % 16 == b % 16
  {
    Names.LastDigit(a, b, Names.Pow16(k - 1));
  }

  lemma NoDigits(a: nat, b: nat)
    requires b < Names.Pow16(0)
    ensures Digits(a, b, 0) == a
  {
  }

  lemma {:induction false} PaddedParts(a: nat, b: nat, j: nat, k: nat)
    requires b < Names.Pow16(k)
    ensures Names.Padded(Digits(a, b, k), j + k) == Names.Padded(a, j) + Names.Padded(b, k)
  {
    hide Names.Padded, Names.Pow16, Digits;
    PaddedStep(Digits(a, b, k), b, j, k);
    if k == 0 {
      NoDigits(a, b);
      assert Names.Padded(a, j) == Names.Padded(a, j) + "";
    } else {
      DigitsStep(a, b, k);
      PaddedParts(a, b / 16, j, k - 1);
      OneDigitMore(Digits(a, b, k), a, b, j, k);
    }
  }

  lemma OneDigitMore(n: nat, a: nat, b: nat, j: nat, k: nat)
    requires k > 0 && n % 16 == b % 16
    requires Names.Padded(n / 16, j + k - 1) == Names.Padded(a, j) + Names.Padded(b / 16, k - 1)
    ensures Names.Padded(n, j + k) == Names.Padded(a, j) + Names.Padded(b, k)
  {
    hide Names.Padded;
    PaddedStep(n, b, j, k);
  }

  lemma PaddedStep(n: nat, b: nat, j: nat, k: nat)
    ensures k == 0 ==> Names.Padded(b, k) == "" && Names.Pow16(k) == 1
    ensures k > 0 ==> Names.Pow16(k) == 16 * Names.Pow16(k - 1)
    ensures k > 0 ==> Names.Padded(n, j + k) == Names.Padded(n / 16, j + k - 1) + [HEX_DIGITS[n % 16]]
    ensures k > 0 ==> Names.Padded(b, k) == Names.Padded(b / 16, k - 1) + [HEX_DIGITS[b % 16]]
  {
  }

  lemma TwoDigits(a: nat, b: byte)
    ensures b < Names.Pow16(2) && Digits(a, b, 2) == a * 0x100 + b
  {
    assert Names.Pow16(2) == 0x100;
  }

  lemma WordText(b0: byte, b1: byte, b2: byte, b3: byte)
    ensures Names.Padded(WordOf(b0, b1, b2, b3), 8)
            == Names.Padded(b0, 2) + Names.Padded(b1, 2) + Names.Padded(b2, 2) + Names.Padded(b3, 2)
  {
    hide Names.Padded, Names.Pow16, Digits;
    var two, three := b0 * 0x100 + b1, (b0 * 0x100 + b1) * 0x100 + b2;
    TwoDigits(b0, b1);
    TwoDigits(two, b2);
    TwoDigits(three, b3);
    PaddedParts(b0, b1, 2, 2);
    PaddedParts(two, b2, 4, 2);
    PaddedParts(three, b3, 6, 2);
  }

  lemma {:induction false} WordsAreBytes(m: Mem, p: int, n: nat, s: seq<byte>)
    requires |s| == 4 * n && Holds(m, p, s)
    ensures WordsText(m, p, n) == BytesText(s)
  {
    hide Names.Padded;
    if n > 0 {
      var k := 4 * (n - 1);
      var t := s[..k];
      assert s == t + s[k..];
      HoldsSplit(m, p, t, s[k..]);
      WordsAreBytes(m, p, n - 1, t);
      BytesTextFour(t, s[k], s[k + 1], s[k + 2], s[k + 3]);
      assert s == t + [s[k], s[k + 1], s[k + 2], s[k + 3]];
      assert m.At(p + k) == s[k] && m.At(p + (k + 1)) == s[k + 1];
      assert m.At(p + (k + 2)) == s[k + 2] && m.At(p + (k + 3)) == s[k + 3];
      WordText(s[k], s[k + 1], s[k + 2], s[k + 3]);
    }
  }

  lemma BytesTextFour(t: seq<byte>, b0: byte, b1: byte, b2: byte, b3: byte)
    ensures BytesText(t + [b0, b1, b2, b3])
            == BytesText(t) + (Names.Padded(b0, 2) + Names.Padded(b1, 2) + Names.Padded(b2, 2) + Names.Padded(b3, 2))
  {
    hide Names.Padded;
    BytesTextOne(t, b0);
    BytesTextOne(t + [b0], b1);
    BytesTextOne(t + [b0] + [b1], b2);
    BytesTextOne(t + [b0] + [b1] + [b2], b3);
    assert t + [b0, b1, b2, b3] == t + [b0] + [b1] + [b2] + [b3];
  }

  lemma BytesTextOne(t: seq<byte>, b: byte)
    ensures BytesText(t + [b]) == BytesText(t) + Names.Padded(b, 2)
  {
    assert (t + [b])[..|t|] == t;
  }
}
