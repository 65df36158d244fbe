/** How nfs_v3.c prints file names and 64-bit numbers. */
module Names {
  import opened Printing
  import opened Words

  // ----- hashed names

  /** The segments of a path: what stands between its slashes. */
  function Split(s: string): (r: seq<string>)
    ensures r != []
    ensures forall i :: 0 <= i < |r| ==> '/' !in r[i]
  {
    if s == "" then [""]
    else if s[0] == '/' then [""] + Split(s[1..])
    else
      var r := Split(s[1..]);
      [[s[0]] + r[0]] + r[1..]
  }

  /** Empty segments, "." and ".." are printed as they are; all others as their digest. */
  function Component(digest: string -> string, s: string): string {
    if s == "" || s == "." || s == ".." then s else digest(s)
  }

  function Components(digest: string -> string, ss: seq<string>): (r: seq<string>)
    ensures |r| == |ss|
    ensures forall i :: 0 <= i < |ss| ==> r[i] == if ss[i] in ["", ".", ".."] then ss[i] else digest(ss[i])
  {
    if ss == [] then [] else [Component(digest, ss[0])] + Components(digest, ss[1..])
  }

  /** The path with every segment hashed on its own. */
  function HashPath(digest: string -> string, name: string): string {
    Join(Components(digest, Split(name)))
  }

  /** print_path_segment: a segment, possibly with the slash in front of it. */
  function PathSegment(digest: string -> string, s: string): string {
    if s != "" && s[0] == '/' then "/" + Component(digest, s[1..]) else Component(digest, s)
  }

  lemma {:induction false} SplitPlain(s: string)
    requires '/' !in s
    ensures Split(s) == [s]
  {
    if s != "" {
      SplitPlain(s[1..]);
      assert [s[0]] + s[1..] == s;
    }
  }

  lemma {:induction false} SplitAppend(a: string, s: string)
    requires '/' !in s
    ensures Split(a + "/" + s) == Split(a) + [s]
  {
    if a == "" {
      assert a + "/" + s == "/" + s && ("/" + s)[1..] == s;
      SplitPlain(s);
    } else {
      assert (a + "/" + s)[1..] == a[1..] + "/" + s;
      SplitAppend(a[1..], s);
    }
  }

  lemma ComponentsAppend(digest: string -> string, ss: seq<string>, s: string)
    ensures Components(digest, ss + [s]) == Components(digest, ss) + [Component(digest, s)]
  {
  }

  /** One more segment on a path is one more hashed segment on its hash. */
  lemma HashMore(digest: string -> string, a: string, s: string)
    requires '/' !in s
    ensures HashPath(digest, a + "/" + s) == HashPath(digest, a) + "/" + Component(digest, s)
  {
    SplitAppend(a, s);
    ComponentsAppend(digest, Split(a), s);
    JoinConcat(Components(digest, Split(a)), [Component(digest, s)]);
  }

  lemma HashPlain(digest: string -> string, s: string)
    requires '/' !in s
    ensures HashPath(digest, s) == Component(digest, s)
  {
    SplitPlain(s);
    assert Components(digest, [s]) == [Component(digest, s)];
  }

  /** A segment begins at `seg`, with its slash unless it is the first, and has no further slash before `i`. */
  predicate AtSegment(name: string, seg: nat, i: nat) {
    && seg <= i <= |name|
    && (seg == 0 || (seg < i && name[seg] == '/'))
    && forall k :: seg < k < i ==> name[k] != '/'
  }

  /** The step of the loop. */
  lemma SegmentStep(digest: string -> string, name: string, seg: nat, i: nat)
    requires i > 0 && AtSegment(name, seg, i)
    ensures HashPath(digest, name[..i])
            == (if seg == 0 then "" else HashPath(digest, name[..seg])) + PathSegment(digest, name[seg..i])
  {
    hide HashPath, Component;
    var s := name[seg..i];
    if s[0] == '/' {
      assert name[..i] == name[..seg] + "/" + s[1..];
      HashMore(digest, name[..seg], s[1..]);
      if seg == 0 {
        HashNothing(digest);
        assert name[..seg] == "";
      }
      var before, hashed := HashPath(digest, name[..seg]), Component(digest, s[1..]);
      assert before + "/" + hashed == before + ("/" + hashed);
    } else {
      assert name[..i] == s;
      assert s == [s[0]] + s[1..];
      HashPlain(digest, s);
    }
  }

  lemma HashNothing(digest: string -> string)
    ensures HashPath(digest, "") == ""
  {
    HashPlain(digest, "");
  }

  /**
   * print_string with hashed names: one pass over the bytes that prints each
   * segment as soon as the next slash is reached.
   */
  method PrintHashed(digest: string -> string, name: string) returns (out: string)
    requires name != ""
    ensures out == "\"" + HashPath(digest, name) + "\" "
  {
    hide HashPath, PathSegment, Component;
    out := "\"";
    var seg, i := 0, 0;
    while i < |name|
      invariant AtSegment(name, seg, i)
      invariant out == "\"" + if seg == 0 then "" else HashPath(digest, name[..seg])
    {
      if name[i] == '/' {
        if i > 0 {
          SegmentStep(digest, name, seg, i);
          out := out + PathSegment(digest, name[seg..i]);
        }
        seg := i;
      }
      i := i + 1;
    }
    SegmentStep(digest, name, seg, i);
    assert name[..i] == name;
    out := out + PathSegment(digest, name[seg..i]);
    out := out + "\" ";
  }

  lemma {:induction false} SplitJoin(ss: seq<string>)
    requires ss != [] && forall i :: 0 <= i < |ss| ==> '/' !in ss[i]
    ensures Split(Join(ss)) == ss
  {
    var n := |ss| - 1;
    if n == 0 {
      SplitPlain(ss[0]);
    } else {
      SplitJoin(ss[..n]);
      assert ss == ss[..n] + [ss[n]];
      JoinConcat(ss[..n], [ss[n]]);
      SplitAppend(Join(ss[..n]), ss[n]);
    }
  }

  /** The segments with slashes between them are the path. */
  lemma {:induction false} JoinSplit(name: string)
    ensures Join(Split(name)) == name
  {
    if name != "" {
      JoinSplit(name[1..]);
      var rest := Split(name[1..]);
      if name[0] == '/' {
        JoinConcat([""], rest);
      } else if |rest| > 1 {
        assert ([[name[0]] + rest[0]] + rest[1..])[1..] == rest[1..];
        assert name == [name[0]] + name[1..];
      }
    }
  }

  /**
   * Hashing keeps the structure of a path, as long as digests have no slash: the
   * printed path has as many segments, of which the empty ones, "." and ".." are
   * as they were, and every other one is the digest of the segment.
   */
  lemma StructureKept(digest: string -> string, name: string)
    requires forall s :: '/' !in digest(s)
    ensures |Split(HashPath(digest, name))| == |Split(name)| && Join(Split(name)) == name
    ensures forall i :: 0 <= i < |Split(name)| ==>
              Split(HashPath(digest, name))[i]
              == if Split(name)[i] in ["", ".", ".."] then Split(name)[i] else digest(Split(name)[i])
  {
    SplitJoin(Components(digest, Split(name)));
    JoinSplit(name);
  }

  // ----- raw names

  const QUOTE := 34
  const BACKSLASH := 92

  /** `isspace` in the C locale. */
  predicate IsSpace(c: byte) {
    c == 32 || 9 <= c <= 13
  }

  predicate NeedsEscape(c: byte) {
    c == QUOTE || c == BACKSLASH || IsSpace(c)
  }

  /** A hexadecimal digit in lower case. */
  function HexDigit(n: nat): byte
    requires n < 16
  {
    if n < 10 then 48 + n else 87 + n
  }

  function DigitValue(c: byte): nat {
    if 48 <= c <= 57 then c - 48 else if 97 <= c <= 102 then c - 87 else 0
  }

  function Escape(s: seq<byte>): seq<byte> {
    if s == [] then []
    else if NeedsEscape(s[0]) then [BACKSLASH, HexDigit(s[0] / 16), HexDigit(s[0] % 16)] + Escape(s[1..])
    else [s[0]] + Escape(s[1..])
  }

  /** A reader of escaped names. */
  function Unescape(s: seq<byte>): seq<byte> {
    if s == [] then []
    else if s[0] == BACKSLASH && |s| >= 3 then
      [(DigitValue(s[1]) * 16 + DigitValue(s[2])) % 256] + Unescape(s[3..])
    else [s[0]] + Unescape(s[1..])
  }

  lemma DigitRoundTrip(n: nat)
    requires n < 16
    ensures DigitValue(HexDigit(n)) == n && !NeedsEscape(HexDigit(n))
  {
  }

  lemma {:induction false} EscapedIsClean(s: seq<byte>)
    ensures forall c :: c in Escape(s) ==> c != 34 && c != 32 && !(9 <= c <= 13)
  {
    if s != [] {
      EscapedIsClean(s[1..]);
      if NeedsEscape(s[0]) {
        DigitRoundTrip(s[0] / 16);
        DigitRoundTrip(s[0] % 16);
      }
    }
  }

  /** Escaping loses nothing, and what it prints holds no quote and no white space. */
  lemma {:induction false} EscapeRoundTrip(s: seq<byte>)
    ensures Unescape(Escape(s)) == s
    ensures forall c :: c in Escape(s) ==> c != 34 && c != 32 && !(9 <= c <= 13)
  {
    EscapedIsClean(s);
    if s != [] {
      EscapeRoundTrip(s[1..]);
      var rest := Escape(s[1..]);
      if NeedsEscape(s[0]) {
        DigitRoundTrip(s[0] / 16);
        DigitRoundTrip(s[0] % 16);
        assert Escape(s)[3..] == rest;
      } else {
        assert Escape(s)[1..] == rest;
      }
      assert s == [s[0]] + s[1..];
    }
  }

  /**
   * A quote, a backslash and white space are printed as a backslash and two
   * digits; every other byte is printed as it is.
   */
  lemma EscapedByte(c: byte)
    ensures Escape([c]) == if c == 34 || c == 92 || c == 32 || 9 <= c <= 13
                           then [92, "0123456789abcdef"[c / 16] as int, "0123456789abcdef"[c % 16] as int]
                           else [c]
  {
    assert [c][1..] == [] && Escape([]) == [];
    assert "0123456789abcdef"[c / 16] as int == HexDigit(c / 16);
    assert "0123456789abcdef"[c % 16] as int == HexDigit(c % 16);
  }

  /** Names are escaped byte by byte. */
  lemma {:induction false} EscapeConcat(a: seq<byte>, b: seq<byte>)
    ensures Escape(a + b) == Escape(a) + Escape(b)
  {
    if a == [] {
      assert a + b == b;
    } else {
      assert (a + b)[1..] == a[1..] + b;
      EscapeConcat(a[1..], b);
    }
  }

  /** print_string with RAWNAMES set. */
  method PrintRaw(name: seq<byte>) returns (out: seq<byte>)
    ensures out == [34] + Escape(name) + [34, 32]
  {
    out := [QUOTE];
    var i := 0;
    while i < |name|
      invariant 0 <= i <= |name|
      invariant out + Escape(name[i..]) == [QUOTE] + Escape(name)
    {
      var c := name[i];
      assert name[i..][1..] == name[i + 1..];
      if c == QUOTE || c == BACKSLASH || IsSpace(c) {
        out := out + [BACKSLASH, HexDigit(c / 16), HexDigit(c % 16)];
      } else {
        out := out + [c];
      }
      i := i + 1;
    }
    out := out + [QUOTE, 32];
  }

  // ----- 64-bit numbers

  /** `%0<width>x`, for numbers that fit the width. */
  function Padded(n: nat, width: nat): (s: string)
    ensures |s| == width
  {
    if width == 0 then "" else Padded(n / 16, width - 1) + [HEX_DIGITS[n % 16]]
  }

  function Pow16(k: nat): (p: nat)
    ensures p > 0
  {
    if k == 0 then 1 else 16 * Pow16(k - 1)
  }

  /** Printing the upper part plainly and the lower part padded prints the whole number. */
  lemma {:induction false} HexOfParts(hi: nat, lo: nat, width: nat)
    requires hi > 0 && lo < Pow16(width)
    ensures Hex(hi * Pow16(width) + lo) == Hex(hi) + Padded(lo, width)
  {
    hide Hex;
    if width == 0 {
      assert Hex(hi) + "" == Hex(hi);
    } else {
      LastDigit(hi, lo, Pow16(width - 1));
      HexOfParts(hi, lo / 16, width - 1);
      HexStep(hi * Pow16(width) + lo);
    }
  }

  lemma LastDigit(hi: nat, lo: nat, p: nat)
    requires p > 0
    ensures var n := hi * (16 * p) + lo;
            n / 16 == hi * p + lo / 16 && n % 16 == lo % 16 && (hi > 0 ==> n >= 16)
  {
    var q := hi * p;
    assert hi > 0 ==> q >= 1;
    assert hi * (16 * p) == 16 * q;
    assert (16 * q + lo) / 16 == q + lo / 16 && (16 * q + lo) % 16 == lo % 16;
  }

  /** print_uint64 and print_uint64_x, given the two words. */
  function PrintUint64(hi: uint32, lo: uint32): string {
    if hi != 0 then Hex(hi) + Padded(lo, 8) else Hex(lo)
  }

  /** They print the 64-bit number in hexadecimal without leading zeros. */
  lemma Uint64Printed(hi: uint32, lo: uint32)
    ensures PrintUint64(hi, lo) == Hex(hi * TWO32 + lo)
  {
    if hi != 0 {
      assert Pow16(8) == TWO32;
      HexOfParts(hi, lo, 8);
    }
  }
}
