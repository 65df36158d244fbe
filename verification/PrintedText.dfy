/** A reader of the numbers and of the attributes that the decoders print. */
module PrintedText {
  import opened Printing
  import opened Words
  import opened XdrCursor
  import Names

  // ----- numerals

  lemma DecimalDigitIs(d: nat)
    requires d < 10
    ensures DigitOf(DIGITS[d]) == d && IsDigit(DIGITS[d], 10) && (d > 0 ==> DIGITS[d] != '0')
  {
  }

  /** What the conversion `%u` prints is the decimal numeral of the number. */
  lemma {:induction false} DecimalReadsBack(n: nat)
    ensures IsNumeral(Decimal(n), 10) && ValueOf(Decimal(n), 10) == n && (n > 0 ==> Decimal(n)[0] != '0')
  {
    DecimalDigitIs(n % 10);
    if n < 10 {
      assert Decimal(n) == "" + [DIGITS[n]];
      ValueMore("", DIGITS[n], 10);
    } else {
      DecimalReadsBack(n / 10);
      ValueMore(Decimal(n / 10), DIGITS[n % 10], 10);
    }
  }

  /** A number printed with leading zeros has as many digits as asked for, and its value is the number. */
  lemma {:induction false} PaddedReadsBack(n: nat, width: nat)
    requires n < Names.Pow16(width)
    ensures |Names.Padded(n, width)| == width && ValueOf(Names.Padded(n, width), 16) == n
    ensures forall i :: 0 <= i < width ==> IsDigit(Names.Padded(n, width)[i], 16)
  {
    if width > 0 {
      HexDigitIs(n % 16);
      PaddedReadsBack(n / 16, width - 1);
      ValueMore(Names.Padded(n / 16, width - 1), HEX_DIGITS[n % 16], 16);
    }
  }

  /** Zeros in front bring a numeral to the length asked for, and do not change its value. */
  lemma {:induction false} ZeroFilledReadsBack(s: string, digits: nat)
    requires forall i :: 0 <= i < |s| ==> IsDigit(s[i], 10)
    ensures var r := ZeroFilled(s, digits);
            && |r| == (if |s| < digits then digits else |s|) && ValueOf(r, 10) == ValueOf(s, 10)
            && forall i :: 0 <= i < |r| ==> IsDigit(r[i], 10)
    decreases digits - |s|
  {
    if |s| < digits {
      LeadingZero(s, 10);
      ZeroFilledReadsBack("0" + s, digits);
    }
  }

  // ----- words and what they say

  /** Position of the first `mark`, or the length of the text. */
  function Find(text: string, mark: char): (i: nat)
    ensures i <= |text| && mark !in text[..i]
    ensures i < |text| ==> text[i] == mark
  {
    if text == "" || text[0] == mark then 0
    else
      var i := Find(text[1..], mark);
      assert text[..i + 1] == [text[0]] + text[1..][..i];
      i + 1
  }

  lemma {:induction false} FindIs(text: string, mark: char, n: nat)
    requires n < |text| && mark !in text[..n] && text[n] == mark
    ensures Find(text, mark) == n
  {
    if n > 0 {
      assert text[..n][0] == text[0];
      assert text[..n][1..] == text[1..][..n - 1];
      FindIs(text[1..], mark, n - 1);
    }
  }

  /** The words of a text in which a space ends every word. */
  function WordsIn(text: string): seq<string>
    decreases |text|
  {
    var i := Find(text, ' ');
    if i == |text| then [] else [text[..i]] + WordsIn(text[i + 1..])
  }

  /** The text consists of whole words. */
  predicate Whole(text: string) {
    text == "" || text[|text| - 1] == ' '
  }

  lemma FirstWord(word: string, rest: string)
    requires ' ' !in word
    ensures WordsIn(word + " " + rest) == [word] + WordsIn(rest)
  {
    var text := word + " " + rest;
    assert text[..|word|] == word && text[|word| + 1..] == rest;
    FindIs(text, ' ', |word|);
  }

  lemma {:induction false} WordsMore(text: string, word: string)
    requires Whole(text) && ' ' !in word
    ensures WordsIn(text + (word + " ")) == WordsIn(text) + [word]
    ensures Whole(text + (word + " "))
    decreases |text|
  {
    hide WordsIn, Find;
    FirstWord(word, "");
    NoWords();
    if text == "" {
      assert text + (word + " ") == word + " " + "";
    } else {
      var i := Find(text, ' ');
      assert text[|text| - 1] in text && text[..|text|] == text;
      var first, rest := text[..i], text[i + 1..];
      assert text == first + " " + rest;
      FirstWord(first, rest);
      WordsMore(rest, word);
      assert text + (word + " ") == first + " " + (rest + (word + " "));
      FirstWord(first, rest + (word + " "));
    }
  }

  lemma NoWords()
    ensures WordsIn("") == []
  {
  }

  /** A value as the decoders print it: hexadecimal, or decimal seconds and microseconds with a point between. */
  datatype Value = Number(n: nat) | Instant(secs: nat, micros: nat)

  function ReadValue(word: string): Value {
    var i := Find(word, '.');
    if i == |word| then Number(ValueOf(word, 16)) else Instant(ValueOf(word[..i], 10), ValueOf(word[i + 1..], 10))
  }

  /** The text consists of these labels in this order, each with its value behind it. */
  ghost predicate Says(text: string, labels: seq<string>, values: seq<Value>) {
    var words := WordsIn(text);
    && Whole(text) && |words| == 2 * |labels| && |values| == |labels|
    && forall i :: 0 <= i < |labels| ==> words[2 * i] == labels[i] && ReadValue(words[2 * i + 1]) == values[i]
  }

  lemma SaysMore(text: string, labels: seq<string>, values: seq<Value>, name: string, word: string)
    requires Says(text, labels, values) && ' ' !in name && ' ' !in word
    ensures Says(text + (name + " ") + (word + " "), labels + [name], values + [ReadValue(word)])
  {
    hide WordsIn, Whole, ReadValue;
    WordsMore(text, name);
    WordsMore(text + (name + " "), word);
  }

  lemma NoMark(s: string, base: nat, mark: char)
    requires !IsDigit(mark, base) && forall i :: 0 <= i < |s| ==> IsDigit(s[i], base)
    ensures mark !in s
  {
  }

  /** A printed number reads as that number. */
  lemma NumberReads(n: nat)
    ensures ' ' !in Hex(n) && ReadValue(Hex(n)) == Number(n)
  {
    hide Hex, ValueOf;
    HexReadsBack(n);
    NoMark(Hex(n), 16, ' ');
    NoMark(Hex(n), 16, '.');
  }

  function TimeWord(t: Time): string {
    Decimal(t.secs) + "." + ZeroFilled(Decimal(t.nsecs / 1000), 6)
  }

  /** A printed time reads as its seconds and whole microseconds, the latter in six digits. */
  lemma TimeReads(t: Time)
    ensures TimeText(t) == TimeWord(t) + " " && ' ' !in TimeWord(t)
    ensures ReadValue(TimeWord(t)) == Instant(t.secs, t.nsecs / 1000)
    ensures t.nsecs < 1_000_000_000 ==> |TimeWord(t)| == Find(TimeWord(t), '.') + 7
  {
    hide Decimal, ZeroFilled, ValueOf;
    var secs, micros := Decimal(t.secs), ZeroFilled(Decimal(t.nsecs / 1000), 6);
    DecimalReadsBack(t.secs);
    DecimalReadsBack(t.nsecs / 1000);
    ZeroFilledReadsBack(Decimal(t.nsecs / 1000), 6);
    NoMark(secs, 10, ' ');
    NoMark(micros, 10, ' ');
    NoMark(secs, 10, '.');
    var word := TimeWord(t);
    assert word[..|secs|] == secs && word[|secs| + 1..] == micros;
    FindIs(word, '.', |secs|);
    if t.nsecs < 1_000_000_000 {
      DecimalLength(t.nsecs / 1000, 6);
    }
  }

  function Pow10(k: nat): nat {
    if k == 0 then 1 else 10 * Pow10(k - 1)
  }

  lemma {:induction false} DecimalLength(n: nat, k: nat)
    requires k > 0 && n < Pow10(k)
    ensures |Decimal(n)| <= k
  {
    if n >= 10 {
      DecimalLength(n / 10, k - 1);
    }
  }

  // ----- attributes

  lemma NumberEntry(text: string, names: seq<string>, values: seq<Value>, tag: string, name: string,
                    n: nat, room: int, need: nat)
    returns (text': string, names': seq<string>, values': seq<Value>)
    requires Says(text, names, values) && tag == name + " " && ' ' !in name && need <= room
    ensures text' == Entry(text, tag, NumberText(n), room, need)
    ensures names' == names + [name] && values' == values + [Number(n)] && Says(text', names', values')
  {
    hide Says, Hex;
    text', names', values' := Entry(text, tag, NumberText(n), room, need), names + [name], values + [Number(n)];
    NumberReads(n);
    SaysMore(text, names, values, name, Hex(n));
  }

  lemma TimeEntry(text: string, names: seq<string>, values: seq<Value>, tag: string, name: string,
                  t: Time, room: int, need: nat)
    returns (text': string, names': seq<string>, values': seq<Value>)
    requires Says(text, names, values) && tag == name + " " && ' ' !in name && need <= room
    ensures text' == Entry(text, tag, TimeText(t), room, need)
    ensures names' == names + [name] && values' == values + [Instant(t.secs, t.nsecs / 1000)]
    ensures Says(text', names', values')
  {
    hide Says, TimeWord, TimeText;
    text', names' := Entry(text, tag, TimeText(t), room, need), names + [name];
    values' := values + [Instant(t.secs, t.nsecs / 1000)];
    TimeReads(t);
    SaysMore(text, names, values, name, TimeWord(t));
  }

  lemma NothingSaid()
    ensures Says("", [], [])
  {
    NoWords();
  }

  lemma FirstNumbers(v: Fattr3) returns (text: string, names: seq<string>, values: seq<Value>)
    ensures Says(text, names, values) && names == ["ftype", "mode", "nlink", "uid", "gid"]
    ensures values == [Number(v.ftype), Number(v.mode), Number(v.nlink), Number(v.uid), Number(v.gid)]
    ensures text == Entry(Entry(Entry(Entry(Entry("", "ftype ", NumberText(v.ftype), 84, 0),
                                            "mode ", NumberText(v.mode), 80, 0),
                                      "nlink ", NumberText(v.nlink), 76, 0),
                                "uid ", NumberText(v.uid), 72, 0),
                          "gid ", NumberText(v.gid), 68, 0)
  {
    NothingSaid();
    hide Says, NumberText, Entry;
    text, names, values := "", [], [];
    text, names, values := NumberEntry(text, names, values, "ftype ", "ftype", v.ftype, 84, 0);
    text, names, values := NumberEntry(text, names, values, "mode ", "mode", v.mode, 80, 0);
    text, names, values := NumberEntry(text, names, values, "nlink ", "nlink", v.nlink, 76, 0);
    text, names, values := NumberEntry(text, names, values, "uid ", "uid", v.uid, 72, 0);
    text, names, values := NumberEntry(text, names, values, "gid ", "gid", v.gid, 68, 0);
  }

  lemma OtherNumbers(v: Fattr3, text: string, names: seq<string>, values: seq<Value>)
    returns (text': string, names': seq<string>, values': seq<Value>)
    requires Says(text, names, values)
    ensures Says(text', names', values')
    ensures names' == names + ["size", "used", "rdev", "rdev2", "fsid", "fileid"]
    ensures values' == values + [Number(v.size), Number(v.used), Number(v.rdev), Number(v.rdev2),
                                 Number(v.fsid), Number(v.fileid)]
    ensures text' == Entry(Entry(Entry(Entry(Entry(Entry(text, "size ", NumberText(v.size), 64, 4),
                                                   "used ", NumberText(v.used), 56, 4),
                                             "rdev ", NumberText(v.rdev), 48, 0),
                                       "rdev2 ", NumberText(v.rdev2), 44, 0),
                                 "fsid ", NumberText(v.fsid), 40, 4),
                           "fileid ", NumberText(v.fileid), 32, 4)
  {
    hide Says, NumberText, Entry;
    text', names', values' := NumberEntry(text, names, values, "size ", "size", v.size, 64, 4);
    text', names', values' := NumberEntry(text', names', values', "used ", "used", v.used, 56, 4);
    text', names', values' := NumberEntry(text', names', values', "rdev ", "rdev", v.rdev, 48, 0);
    text', names', values' := NumberEntry(text', names', values', "rdev2 ", "rdev2", v.rdev2, 44, 0);
    text', names', values' := NumberEntry(text', names', values', "fsid ", "fsid", v.fsid, 40, 4);
    text', names', values' := NumberEntry(text', names', values', "fileid ", "fileid", v.fileid, 32, 4);
  }

  lemma Times(v: Fattr3, text: string, names: seq<string>, values: seq<Value>)
    returns (text': string, names': seq<string>, values': seq<Value>)
    requires Says(text, names, values)
    ensures Says(text', names', values') && names' == names + ["atime", "mtime", "ctime"]
    ensures values' == values + [Instant(v.atime.secs, v.atime.nsecs / 1000),
                                 Instant(v.mtime.secs, v.mtime.nsecs / 1000),
                                 Instant(v.ctime.secs, v.ctime.nsecs / 1000)]
    ensures text' == Entry(Entry(Entry(text, "atime ", TimeText(v.atime), 24, 8),
                                 "mtime ", TimeText(v.mtime), 16, 8),
                           "ctime ", TimeText(v.ctime), 8, 8)
  {
    hide Says, TimeText, Entry;
    text', names', values' := TimeEntry(text, names, values, "atime ", "atime", v.atime, 24, 8);
    text', names', values' := TimeEntry(text', names', values', "mtime ", "mtime", v.mtime, 16, 8);
    text', names', values' := TimeEntry(text', names', values', "ctime ", "ctime", v.ctime, 8, 8);
  }

  /**
   * Attributes read as they are: the printed text has the fourteen labels in
   * their order, and behind each of them its own number or time.
   */
  lemma FattrReadsBack(v: Fattr3)
    ensures Says(FattrText(v, 84),
                 ["ftype", "mode", "nlink", "uid", "gid"] + ["size", "used", "rdev", "rdev2", "fsid", "fileid"]
                 + ["atime", "mtime", "ctime"],
                 [Number(v.ftype), Number(v.mode), Number(v.nlink), Number(v.uid), Number(v.gid)]
                 + [Number(v.size), Number(v.used), Number(v.rdev), Number(v.rdev2), Number(v.fsid), Number(v.fileid)]
                 + [Instant(v.atime.secs, v.atime.nsecs / 1000), Instant(v.mtime.secs, v.mtime.nsecs / 1000),
                    Instant(v.ctime.secs, v.ctime.nsecs / 1000)])
  {
    hide Says, NumberText, TimeText, Entry;
    var text, names, values := FirstNumbers(v);
    text, names, values := OtherNumbers(v, text, names, values);
    text, names, values := Times(v, text, names, values);
  }

  /** The same for the attributes from before an operation. */
  lemma PreOpReadsBack(v: PreOp)
    ensures Says(PreOpText(v, 24), ["pre-size", "pre-mtime", "pre-ctime"],
                 [Number(v.size), Instant(v.mtime.secs, v.mtime.nsecs / 1000),
                  Instant(v.ctime.secs, v.ctime.nsecs / 1000)])
  {
    NothingSaid();
    hide Says, NumberText, TimeText, Entry;
    var s, names, values := "", [], [];
    s, names, values := NumberEntry(s, names, values, "pre-size ", "pre-size", v.size, 24, 4);
    s, names, values := TimeEntry(s, names, values, "pre-mtime ", "pre-mtime", v.mtime, 16, 8);
    s, names, values := TimeEntry(s, names, values, "pre-ctime ", "pre-ctime", v.ctime, 8, 8);
    assert names == ["pre-size", "pre-mtime", "pre-ctime"];
    assert values == [Number(v.size), Instant(v.mtime.secs, v.mtime.nsecs / 1000),
                      Instant(v.ctime.secs, v.ctime.nsecs / 1000)];
  }
}
