/** getRpcHeader and get_auth, and the wire format (RFC 5531) they are meant to undo. */
module RpcHeader {
  import opened Words
  import opened Options

  const CALL := 0
  const REPLY := 1
  const RPC_VERSION := 2
  const NFS_PROGRAM := 100003
  const MOUNT_PROGRAM := 100005
  const AUTH_UNIX := 1

  /** `BadHeader` is the result -1. `rhLen` is the C `int`, so it can be negative or zero. */
  datatype Header = BadHeader | Header(dir: uint32, rhLen: int, euid: int, egid: int)

  /**
   * By how many words `ui` moves over an authenticator whose body has the given
   * length: `(len + (2 * sizeof (*ui) + 3)) / sizeof (*ui)`. The addition is in
   * `size_t` and the pointer wraps with it, so a length with its top bit set
   * moves `ui` backwards: the floor of the signed quotient.
   */
  function AuthWords(len: uint32): int {
    (Signed(len) + 11) / 4
  }

  /** `4 * (ui - bp)` returned through `u_int32_t` as an `int`. */
  function LengthInBytes(ui: int): int {
    Signed(Wrap(4 * ui))
  }

  function RoundUp4(n: nat): nat {
    (n + 3) / 4
  }

  /** euid and egid out of the AUTH_UNIX credential at word `ui`. */
  function GetAuth(m: Mem, base: int, ui: int): Option<(int, int)> {
    if m.Word(base + 4 * ui) != AUTH_UNIX then None
    else
      var pi := ui + 4 + RoundUp4(m.Word(base + 4 * (ui + 3)));
      Some((Signed(m.Word(base + 4 * pi)), Signed(m.Word(base + 4 * (pi + 1)))))
  }

  function GetRpcHeader(m: Mem, base: int, maxlen: nat): Header {
    var maxWords := maxlen / 4;
    var dir := m.Word(base + 4);
    if dir == CALL then
      var prog := m.Word(base + 12);
      if m.Word(base + 8) != RPC_VERSION || (prog != NFS_PROGRAM && prog != MOUNT_PROGRAM) then BadHeader
      else if 7 >= maxWords then BadHeader
      else
        var ui := 6 + AuthWords(m.Word(base + 28));
        if ui + 1 >= maxWords then BadHeader
        else
          match GetAuth(m, base, 6)
          case None => BadHeader
          case Some((euid, egid)) =>
            Header(CALL, LengthInBytes(ui + AuthWords(m.Word(base + 4 * (ui + 1)))), euid, egid)
    else if dir == REPLY then
      if 4 >= maxWords then BadHeader
      else Header(REPLY, LengthInBytes(3 + AuthWords(m.Word(base + 16))), -1, -1)
    else BadHeader
  }

  // ----- the wire format

  datatype Message =
    | CallMsg(xid: uint32, prog: uint32, vers: uint32, proc: uint32,
              stamp: uint32, machine: seq<byte>, uid: uint32, gid: uint32, gids: seq<uint32>,
              verfFlavor: uint32, verf: seq<byte>, args: seq<byte>)
    | ReplyMsg(xid: uint32, verfFlavor: uint32, verf: seq<byte>, acceptStat: uint32, results: seq<byte>)

  /** Variable-length opaque data (section 4.10 of RFC 4506): the length, the bytes, zeros up to a whole word. */
  ghost function Opaque(body: seq<byte>): (s: seq<byte>)
    requires |body| < TWO32
    ensures |s| == 4 + 4 * RoundUp4(|body|)
  {
    BytesOf(|body|) + body + Padding(|body|)
  }

  ghost function Padding(n: nat): (s: seq<byte>)
    ensures |s| == 4 * RoundUp4(n) - n
  {
    seq<byte>(4 * RoundUp4(n) - n, _ => 0)
  }

  /** Padding is what is missing to a multiple of four, in zeros. */
  lemma PaddingIs(n: nat)
    ensures |Padding(n)| < 4 && (n + |Padding(n)|) % 4 == 0
    ensures forall i :: 0 <= i < |Padding(n)| ==> Padding(n)[i] == 0
  {
  }

  ghost function WordBytes(ws: seq<uint32>): (s: seq<byte>)
    ensures |s| == 4 * |ws|
  {
    if ws == [] then [] else BytesOf(ws[0]) + WordBytes(ws[1..])
  }

  ghost function UnixBody(c: Message): (s: seq<byte>)
    requires c.CallMsg? && |c.machine| < TWO32 && |c.gids| < TWO32
    ensures |s| == 20 + 4 * RoundUp4(|c.machine|) + 4 * |c.gids|
  {
    BytesOf(c.stamp) + Opaque(c.machine) + BytesOf(c.uid) + BytesOf(c.gid) + BytesOf(|c.gids|) + WordBytes(c.gids)
  }

  /** Sizes that the 32-bit length fields of the header can express, and a program the decoder looks at. */
  ghost predicate Encodable(m: Message) {
    match m
    case CallMsg(_, prog, _, _, _, machine, _, _, gids, _, verf, _) =>
      && (prog == NFS_PROGRAM || prog == MOUNT_PROGRAM)
      && 4 * |machine| + 4 * |gids| + |verf| < TWO31 - 0x100
    case ReplyMsg(_, _, verf, _, _) =>
      |verf| < TWO31 - 0x100
  }

  ghost function CallStart(c: Message): (s: seq<byte>)
    requires c.CallMsg?
    ensures |s| == 24
  {
    BytesOf(c.xid) + BytesOf(CALL) + BytesOf(RPC_VERSION) + BytesOf(c.prog) + BytesOf(c.vers) + BytesOf(c.proc)
  }

  ghost function ReplyStart(r: Message): (s: seq<byte>)
    requires r.ReplyMsg?
    ensures |s| == 12
  {
    BytesOf(r.xid) + BytesOf(REPLY) + BytesOf(0)
  }

  ghost function Authenticator(flavor: uint32, body: seq<byte>): (s: seq<byte>)
    requires |body| < TWO32
    ensures |s| == 8 + 4 * RoundUp4(|body|)
  {
    BytesOf(flavor) + Opaque(body)
  }

  /** Everything before the arguments of a call, or before the accept_stat of a reply. */
  ghost function HeaderBytes(m: Message): (s: seq<byte>)
    requires Encodable(m)
    ensures |s| < TWO31
    ensures |s| == if m.CallMsg?
                   then 40 + 4 * RoundUp4(|UnixBody(m)|) + 4 * RoundUp4(|m.verf|)
                   else 20 + 4 * RoundUp4(|m.verf|)
  {
    if m.CallMsg?
    then (CallStart(m) + Authenticator(AUTH_UNIX, UnixBody(m))) + Authenticator(m.verfFlavor, m.verf)
    else ReplyStart(m) + Authenticator(m.verfFlavor, m.verf)
  }

  ghost function Encode(m: Message): (s: seq<byte>)
    requires Encodable(m)
  {
    match m
    case CallMsg(_, _, _, _, _, _, _, _, _, _, _, args) => HeaderBytes(m) + args
    case ReplyMsg(_, _, _, acceptStat, results) => HeaderBytes(m) + BytesOf(acceptStat) + results
  }

  // ----- round trip

  /** Memory holds the bytes `s` from offset `off` on. */
  ghost predicate Holds(m: Mem, off: int, s: seq<byte>) {
    forall i :: 0 <= i < |s| ==> m.At(off + i) == s[i]
  }

  lemma HoldsSplit(m: Mem, off: int, a: seq<byte>, b: seq<byte>)
    requires Holds(m, off, a + b)
    ensures Holds(m, off, a) && Holds(m, off + |a|, b)
  {
    forall i | 0 <= i < |a| ensures m.At(off + i) == a[i] {
      assert (a + b)[i] == a[i];
    }
    forall i | 0 <= i < |b| ensures m.At(off + |a| + i) == b[i] {
      assert (a + b)[|a| + i] == b[i] && m.At(off + (|a| + i)) == (a + b)[|a| + i];
    }
  }

  lemma HoldsWord(m: Mem, off: int, w: uint32)
    requires Holds(m, off, BytesOf(w))
    ensures m.Word(off) == w
  {
    var s := BytesOf(w);
    assert m.At(off + 0) == s[0] && m.At(off + 1) == s[1] && m.At(off + 2) == s[2] && m.At(off + 3) == s[3];
  }

  lemma HoldsOpaque(m: Mem, off: int, body: seq<byte>)
    requires |body| < TWO32 && Holds(m, off, Opaque(body))
    ensures m.Word(off) == |body| && Holds(m, off + 4, body)
  {
    hide Holds, RoundUp4, BytesOf, Padding;
    HoldsSplit(m, off, BytesOf(|body|) + body, Padding(|body|));
    HoldsSplit(m, off, BytesOf(|body|), body);
    HoldsWord(m, off, |body|);
  }

  lemma HoldsUnixBody(m: Mem, off: int, c: Message)
    requires c.CallMsg? && |c.machine| < TWO32 && |c.gids| < TWO32
    requires Holds(m, off, UnixBody(c))
    ensures m.Word(off + 4) == |c.machine|
    ensures m.Word(off + 8 + 4 * RoundUp4(|c.machine|)) == c.uid
    ensures m.Word(off + 12 + 4 * RoundUp4(|c.machine|)) == c.gid
  {
    hide Holds, RoundUp4, BytesOf, Opaque, Mem.Word;
    var s1 := BytesOf(c.stamp) + Opaque(c.machine);
    var s2 := s1 + BytesOf(c.uid);
    var s3 := s2 + BytesOf(c.gid);
    var s4 := s3 + BytesOf(|c.gids|);
    HoldsSplit(m, off, s4, WordBytes(c.gids));
    HoldsSplit(m, off, s3, BytesOf(|c.gids|));
    HoldsSplit(m, off, s2, BytesOf(c.gid));
    HoldsSplit(m, off, s1, BytesOf(c.uid));
    HoldsSplit(m, off, BytesOf(c.stamp), Opaque(c.machine));
    HoldsOpaque(m, off + 4, c.machine);
    HoldsWord(m, off + |s1|, c.uid);
    HoldsWord(m, off + |s2|, c.gid);
  }

  lemma HoldsCallStart(m: Mem, off: int, c: Message)
    requires c.CallMsg? && Encodable(c)
    requires Holds(m, off, CallStart(c))
    ensures m.Word(off) == c.xid && m.Word(off + 4) == CALL && m.Word(off + 8) == RPC_VERSION
    ensures m.Word(off + 12) == c.prog && m.Word(off + 16) == c.vers && m.Word(off + 20) == c.proc
  {
    hide Holds, BytesOf, Mem.Word;
    var s1 := BytesOf(c.xid) + BytesOf(CALL);
    var s2 := s1 + BytesOf(RPC_VERSION);
    var s3 := s2 + BytesOf(c.prog);
    var s4 := s3 + BytesOf(c.vers);
    HoldsSplit(m, off, s4, BytesOf(c.proc));
    HoldsSplit(m, off, s3, BytesOf(c.vers));
    HoldsSplit(m, off, s2, BytesOf(c.prog));
    HoldsSplit(m, off, s1, BytesOf(RPC_VERSION));
    HoldsSplit(m, off, BytesOf(c.xid), BytesOf(CALL));
    HoldsWord(m, off, c.xid);
    HoldsWord(m, off + 4, CALL);
    HoldsWord(m, off + 8, RPC_VERSION);
    HoldsWord(m, off + 12, c.prog);
    HoldsWord(m, off + 16, c.vers);
    HoldsWord(m, off + 20, c.proc);
  }

  lemma HoldsReplyStart(m: Mem, off: int, r: Message)
    requires r.ReplyMsg? && Holds(m, off, ReplyStart(r))
    ensures m.Word(off) == r.xid && m.Word(off + 4) == REPLY && m.Word(off + 8) == 0
  {
    hide Holds, BytesOf, Mem.Word;
    HoldsSplit(m, off, BytesOf(r.xid) + BytesOf(REPLY), BytesOf(0));
    HoldsSplit(m, off, BytesOf(r.xid), BytesOf(REPLY));
    HoldsWord(m, off, r.xid);
    HoldsWord(m, off + 4, REPLY);
    HoldsWord(m, off + 8, 0);
  }

  lemma HoldsAuthenticator(m: Mem, off: int, flavor: uint32, body: seq<byte>)
    requires |body| < TWO32 && Holds(m, off, Authenticator(flavor, body))
    ensures m.Word(off) == flavor && m.Word(off + 4) == |body| && Holds(m, off + 8, body)
  {
    hide Holds, BytesOf, RoundUp4, Opaque, Mem.Word;
    HoldsSplit(m, off, BytesOf(flavor), Opaque(body));
    HoldsWord(m, off, flavor);
    HoldsOpaque(m, off + 4, body);
  }

  /** What the decoder must find in memory that holds the header of `c`. */
  lemma HoldsCall(m: Mem, off: int, c: Message)
    requires c.CallMsg? && Encodable(c) && Holds(m, off, HeaderBytes(c))
    ensures m.Word(off) == c.xid && m.Word(off + 4) == CALL && m.Word(off + 8) == RPC_VERSION
    ensures m.Word(off + 12) == c.prog && m.Word(off + 16) == c.vers && m.Word(off + 20) == c.proc
    ensures m.Word(off + 24) == AUTH_UNIX && m.Word(off + 28) == |UnixBody(c)|
    ensures m.Word(off + 36) == |c.machine|
    ensures m.Word(off + 40 + 4 * RoundUp4(|c.machine|)) == c.uid
    ensures m.Word(off + 44 + 4 * RoundUp4(|c.machine|)) == c.gid
    ensures m.Word(off + 36 + 4 * RoundUp4(|UnixBody(c)|)) == |c.verf|
  {
    hide Holds, BytesOf, RoundUp4, UnixBody, CallStart, Authenticator, Mem.Word;
    UnixBodySize(c);
    var cred, verf := Authenticator(AUTH_UNIX, UnixBody(c)), Authenticator(c.verfFlavor, c.verf);
    HoldsSplit(m, off, CallStart(c) + cred, verf);
    HoldsSplit(m, off, CallStart(c), cred);
    HoldsCallStart(m, off, c);
    HoldsAuthenticator(m, off + 24, AUTH_UNIX, UnixBody(c));
    HoldsUnixBody(m, off + 32, c);
    HoldsAuthenticator(m, off + |CallStart(c) + cred|, c.verfFlavor, c.verf);
  }

  lemma HoldsReply(m: Mem, off: int, r: Message)
    requires r.ReplyMsg? && Encodable(r) && Holds(m, off, HeaderBytes(r))
    ensures m.Word(off) == r.xid && m.Word(off + 4) == REPLY && m.Word(off + 8) == 0
    ensures m.Word(off + 16) == |r.verf|
  {
    hide Holds, BytesOf, RoundUp4, ReplyStart, Authenticator, Mem.Word;
    HoldsSplit(m, off, ReplyStart(r), Authenticator(r.verfFlavor, r.verf));
    HoldsReplyStart(m, off, r);
    HoldsAuthenticator(m, off + 12, r.verfFlavor, r.verf);
  }

  lemma UnixBodySize(c: Message)
    requires c.CallMsg? && Encodable(c)
    ensures |UnixBody(c)| < TWO31
  {
  }

  lemma AuthWordsPadded(n: nat)
    requires n < TWO31
    ensures AuthWords(n) == 2 + RoundUp4(n)
  {
  }

  lemma LengthSmall(ui: nat)
    requires 4 * ui < TWO31
    ensures LengthInBytes(ui) == 4 * ui
  {
  }

  /**
   * For every encodable message, whatever the lengths of credential, verifier
   * and machine name, and whatever follows in memory, the decoder finds the
   * exact padded length of the header and, in calls, the encoded uid and gid.
   */
  lemma HeaderRoundTrip(m: Mem, base: int, maxlen: nat, msg: Message)
    requires Encodable(msg) && Holds(m, base, HeaderBytes(msg)) && |HeaderBytes(msg)| <= maxlen
    ensures GetRpcHeader(m, base, maxlen)
            == if msg.CallMsg? then Header(CALL, |HeaderBytes(msg)|, Signed(msg.uid), Signed(msg.gid))
               else Header(REPLY, |HeaderBytes(msg)|, -1, -1)
  {
    hide Holds, BytesOf, UnixBody, HeaderBytes, AuthWords, RoundUp4, LengthInBytes, Mem.Word;
    if msg.CallMsg? {
      HoldsCall(m, base, msg);
      UnixBodySize(msg);
      AuthWordsPadded(|UnixBody(msg)|);
      AuthWordsPadded(|msg.verf|);
      LengthSmall(10 + RoundUp4(|UnixBody(msg)|) + RoundUp4(|msg.verf|));
    } else {
      HoldsReply(m, base, msg);
      AuthWordsPadded(|msg.verf|);
      LengthSmall(5 + RoundUp4(|msg.verf|));
    }
  }

  // ----- what is accepted

  /** Any call (section 9 of RFC 5531): any version, program and kind of credential. */
  datatype RawCall = RawCall(xid: uint32, rpcVersion: uint32, prog: uint32, vers: uint32, proc: uint32,
                             flavor: uint32, cred: seq<byte>, verfFlavor: uint32, verf: seq<byte>)

  ghost predicate Sized(c: RawCall) {
    |c.cred| + |c.verf| < TWO31 - 0x40
  }

  ghost function RawStart(c: RawCall): (s: seq<byte>)
    ensures |s| == 24
  {
    BytesOf(c.xid) + BytesOf(0) + BytesOf(c.rpcVersion) + BytesOf(c.prog) + BytesOf(c.vers) + BytesOf(c.proc)
  }

  /** The call up to the length of its verifier, which is the last word that the decoder has to see. */
  ghost function RawPrefix(c: RawCall): (s: seq<byte>)
    requires Sized(c)
    ensures |s| == 40 + 4 * RoundUp4(|c.cred|)
  {
    (RawStart(c) + Authenticator(c.flavor, c.cred)) + (BytesOf(c.verfFlavor) + BytesOf(|c.verf|))
  }

  ghost function RawHeader(c: RawCall): (s: seq<byte>)
    requires Sized(c)
    ensures |s| == 40 + 4 * RoundUp4(|c.cred|) + 4 * RoundUp4(|c.verf|) < TWO31
  {
    RawPrefix(c) + c.verf + Padding(|c.verf|)
  }

  /** The calls that nfsdump is interested in: RPC version 2, NFS or MOUNT, with AUTH_UNIX credentials. */
  predicate OfInterest(c: RawCall) {
    c.rpcVersion == 2 && (c.prog == 100003 || c.prog == 100005) && c.flavor == 1
  }

  lemma HoldsRawStart(m: Mem, off: int, c: RawCall)
    requires Holds(m, off, RawStart(c))
    ensures m.Word(off + 4) == 0 && m.Word(off + 8) == c.rpcVersion && m.Word(off + 12) == c.prog
  {
    hide Holds, BytesOf, Mem.Word;
    var s1 := BytesOf(c.xid) + BytesOf(0);
    var s2 := s1 + BytesOf(c.rpcVersion);
    var s3 := s2 + BytesOf(c.prog);
    HoldsSplit(m, off, s3 + BytesOf(c.vers), BytesOf(c.proc));
    HoldsSplit(m, off, s3, BytesOf(c.vers));
    HoldsSplit(m, off, s2, BytesOf(c.prog));
    HoldsSplit(m, off, s1, BytesOf(c.rpcVersion));
    HoldsSplit(m, off, BytesOf(c.xid), BytesOf(0));
    HoldsWord(m, off + 4, 0);
    HoldsWord(m, off + 8, c.rpcVersion);
    HoldsWord(m, off + 12, c.prog);
  }

  lemma HoldsRawCall(m: Mem, off: int, c: RawCall)
    requires Sized(c) && Holds(m, off, RawPrefix(c))
    ensures m.Word(off + 4) == 0 && m.Word(off + 8) == c.rpcVersion && m.Word(off + 12) == c.prog
    ensures m.Word(off + 24) == c.flavor && m.Word(off + 28) == |c.cred|
    ensures m.Word(off + 36 + 4 * RoundUp4(|c.cred|)) == |c.verf|
  {
    hide Holds, BytesOf, RoundUp4, RawStart, Authenticator, Mem.Word;
    var first, second := RawStart(c) + Authenticator(c.flavor, c.cred), BytesOf(c.verfFlavor) + BytesOf(|c.verf|);
    HoldsSplit(m, off, first, second);
    HoldsSplit(m, off, RawStart(c), Authenticator(c.flavor, c.cred));
    HoldsRawStart(m, off, c);
    HoldsAuthenticator(m, off + 24, c.flavor, c.cred);
    HoldsSplit(m, off + |first|, BytesOf(c.verfFlavor), BytesOf(|c.verf|));
    HoldsWord(m, off + |first| + 4, |c.verf|);
  }

  /**
   * Which calls have a header: those of interest, captured up to the length of
   * their verifier. Then the header's length is the exact padded length.
   */
  lemma RawHeaderIff(m: Mem, base: int, maxlen: nat, c: RawCall)
    requires Sized(c) && Holds(m, base, RawPrefix(c))
    ensures var h := GetRpcHeader(m, base, maxlen);
            && (h.Header? <==> OfInterest(c) && |RawPrefix(c)| <= maxlen)
            && (h.Header? ==> h.dir == 0 && h.rhLen == |RawHeader(c)|)
  {
    hide Holds, BytesOf, RawPrefix, RawHeader, AuthWords, RoundUp4, LengthInBytes, Mem.Word;
    HoldsRawCall(m, base, c);
    AuthWordsPadded(|c.cred|);
    AuthWordsPadded(|c.verf|);
    assert |RawHeader(c)| < TWO31;
    LengthSmall(10 + RoundUp4(|c.cred|) + RoundUp4(|c.verf|));
  }

  /** Every reply that is captured up to the length of its verifier has a header, and nothing else has. */
  lemma ReplyHeaderIff(m: Mem, base: int, maxlen: nat, r: Message)
    requires r.ReplyMsg? && Encodable(r) && Holds(m, base, HeaderBytes(r))
    ensures var h := GetRpcHeader(m, base, maxlen);
            && (h.Header? <==> 20 <= maxlen)
            && (h.Header? ==> h == Header(1, |HeaderBytes(r)|, -1, -1))
  {
    hide Holds, BytesOf, HeaderBytes, AuthWords, RoundUp4, LengthInBytes, Mem.Word;
    HoldsReply(m, base, r);
    AuthWordsPadded(|r.verf|);
    LengthSmall(5 + RoundUp4(|r.verf|));
  }

  /** What is neither a call nor a reply has no header. */
  lemma NoDirection(m: Mem, base: int, maxlen: nat)
    requires m.Word(base + 4) != 0 && m.Word(base + 4) != 1
    ensures GetRpcHeader(m, base, maxlen) == BadHeader
  {
    hide Mem.Word;
  }

  /** A call with AUTH_UNIX credentials as one of any calls. */
  ghost function AsRaw(c: Message): RawCall
    requires c.CallMsg? && Encodable(c)
  {
    RawCall(c.xid, 2, c.prog, c.vers, c.proc, 1, UnixBody(c), c.verfFlavor, c.verf)
  }

  lemma UnixBodyFits(c: Message)
    requires c.CallMsg? && Encodable(c)
    ensures |UnixBody(c)| + |c.verf| < TWO31 - 0x40
  {
  }

  /** The two encodings agree. */
  lemma RawHeaderBytes(c: Message)
    requires c.CallMsg? && Encodable(c)
    ensures Sized(AsRaw(c)) && RawHeader(AsRaw(c)) == HeaderBytes(c)
  {
    UnixBodyFits(c);
    hide BytesOf, UnixBody, Padding, RoundUp4;
    var a := CallStart(c) + Authenticator(AUTH_UNIX, UnixBody(c));
    assert Authenticator(c.verfFlavor, c.verf)
        == (BytesOf(c.verfFlavor) + BytesOf(|c.verf|)) + (c.verf + Padding(|c.verf|));
    assert a + ((BytesOf(c.verfFlavor) + BytesOf(|c.verf|)) + (c.verf + Padding(|c.verf|)))
        == (a + (BytesOf(c.verfFlavor) + BytesOf(|c.verf|))) + c.verf + Padding(|c.verf|);
  }
}
