/** How an upload is classified and named on disk (app.py, process_file), and
    where the QR image of a student is kept. */
module Naming {

  newtype uint16 = x: int | 0 <= x < 0x1_0000

  /** What process_file draws from its environment for one upload: the clock
      in whole seconds (int(time.time())) and two random bytes
      (os.urandom(2)), read here as one big-endian 16-bit number. */
  datatype Stamp = Stamp(seconds: nat, random: uint16)

  /** Extensions whose uploads are converted to a PDF. */
  const ImageExtensions: seq<string> := ["jpg", "jpeg", "png"]

  /** Python's str.lower on one character, for the ASCII letters. */
  function LowerChar(c: char): char {
    if 'A' <= c <= 'Z' then (c as int - 'A' as int + 'a' as int) as char else c
  }

  function Lower(s: string): (r: string)
    ensures |r| == |s|
    ensures forall i :: 0 <= i < |s| ==> r[i] == LowerChar(s[i])
  {
    seq(|s|, i requires 0 <= i < |s| => LowerChar(s[i]))
  }

  /** `s.split('.')[-1]`: the text after the last dot, which is all of s
      when s has no dot. */
  function AfterLastDot(s: string): (r: string)
    ensures |r| <= |s|
    decreases |s|
  {
    if s == [] then []
    else if s[|s| - 1] == '.' then []
    else AfterLastDot(s[..|s| - 1]) + [s[|s| - 1]]
  }

  /** What AfterLastDot gives is the longest suffix of s without a dot: it
      has no dot, and it is preceded by a dot unless it is all of s. */
  lemma AfterLastDotIsLastPart(s: string)
    ensures var r := AfterLastDot(s);
            && '.' !in r
            && r == s[|s| - |r|..]
            && (|r| < |s| ==> s[|s| - |r| - 1] == '.')
            && ('.' !in s ==> r == s)
  {
    AfterLastDotHasNoDot(s);
    AfterLastDotIsSuffix(s);
    AfterLastDotWhole(s);
  }

  lemma {:induction false} AfterLastDotHasNoDot(s: string)
    ensures '.' !in AfterLastDot(s)
    decreases |s|
  {
    if s != [] && s[|s| - 1] != '.' {
      AfterLastDotHasNoDot(s[..|s| - 1]);
    }
  }

  lemma {:induction false} AfterLastDotIsSuffix(s: string)
    ensures var r := AfterLastDot(s);
            && r == s[|s| - |r|..]
            && (|r| < |s| ==> s[|s| - |r| - 1] == '.')
    decreases |s|
  {
    if s != [] && s[|s| - 1] != '.' {
      var init, last := s[..|s| - 1], s[|s| - 1];
      var r0 := AfterLastDot(init);
      AfterLastDotIsSuffix(init);
      var k := |init| - |r0|;
      assert s == init + [last];
      SliceSnoc(init, last, k);
      assert AfterLastDot(s) == r0 + [last];
      if k > 0 {
        assert s[k - 1] == init[k - 1];
      }
    }
  }

  /** A suffix of `x + [c]` from within x. */
  lemma SliceSnoc(x: string, c: char, k: nat)
    requires k <= |x|
    ensures (x + [c])[k..] == x[k..] + [c]
    ensures k > 0 ==> (x + [c])[k - 1] == x[k - 1]
  {
  }

  lemma {:induction false} AfterLastDotWhole(s: string)
    ensures '.' !in s ==> AfterLastDot(s) == s
    decreases |s|
  {
    if s != [] && '.' !in s {
      var init, last := s[..|s| - 1], s[|s| - 1];
      assert '.' !in init by {
        assert forall i :: 0 <= i < |init| ==> init[i] == s[i];
      }
      AfterLastDotWhole(init);
      assert s == init + [last];
    }
  }

  /** The extension process_file tests: the text after the last dot, lower-cased. */
  function Extension(filename: string): string {
    Lower(AfterLastDot(filename))
  }

  predicate IsImage(filename: string) {
    Extension(filename) in ImageExtensions
  }

  /** One decimal digit, as str() writes it. */
  function DigitChar(d: nat): char
    requires d < 10
  {
    ('0' as int + d) as char
  }

  predicate IsDigitChar(c: char) {
    '0' <= c <= '9'
  }

  /** str(n) for a non-negative int: decimal, no leading zeros. */
  function Decimal(n: nat): (r: string)
    ensures |r| >= 1
    ensures forall i :: 0 <= i < |r| ==> IsDigitChar(r[i])
    ensures |r| == 1 <==> n < 10
    decreases n
  {
    if n < 10 then [DigitChar(n)] else Decimal(n / 10) + [DigitChar(n % 10)]
  }

  /** One lower-case hexadecimal digit, as bytes.hex() writes it. */
  function HexDigit(d: nat): char
    requires d < 16
  {
    if d < 10 then ('0' as int + d) as char else ('a' as int + d - 10) as char
  }

  /** bytes.hex() of the two random bytes: high byte first, two digits each. */
  function Hex4(r: uint16): (h: string)
    ensures |h| == 4
  {
    var hi := r as int / 256;
    var lo := r as int % 256;
    [HexDigit(hi / 16), HexDigit(hi % 16), HexDigit(lo / 16), HexDigit(lo % 16)]
  }

  /** What follows the random id: ".pdf" for an image, which is stored
      converted, otherwise "_" and the sanitised original name. `secure`
      stands for werkzeug's secure_filename. */
  function NameTail(filename: string, secure: string -> string): string {
    if IsImage(filename) then ".pdf" else "_" + secure(filename)
  }

  /** The name process_file stores an upload under:
      `{sid}_{timestamp}_{hex}.pdf` for an image,
      `{sid}_{timestamp}_{hex}_{secure_filename(name)}` otherwise. */
  function StoredName(sid: string, at: Stamp, filename: string, secure: string -> string): string {
    sid + "_" + Decimal(at.seconds) + "_" + Hex4(at.random) + NameTail(filename, secure)
  }

  /** The file the QR code of a student is saved to: `static/{sid}_qr.png`. */
  function QrName(sid: string): (r: string)
    ensures |r| == |sid| + 7 && r[..|sid|] == sid && r[|sid|..] == "_qr.png"
  {
    sid + "_qr.png"
  }

  /** The shape of a stored name: `{sid}_` first, then `.pdf` for an image
      and `_{secure_filename(name)}` for anything else. */
  lemma StoredNameShape(sid: string, at: Stamp, filename: string, secure: string -> string)
    ensures var r := StoredName(sid, at, filename, secure);
            && |r| > |sid| && r[..|sid| + 1] == sid + "_"
            && (IsImage(filename) ==> |r| >= 4 && r[|r| - 4..] == ".pdf")
            && (!IsImage(filename) ==>
                  |r| > |secure(filename)| && r[|r| - |secure(filename)| - 1..] == "_" + secure(filename))
  {
    var head, mid := sid + "_", Decimal(at.seconds) + "_" + Hex4(at.random);
    var tail := NameTail(filename, secure);
    StoredNameParts(sid, at, filename, secure);
    Bracketed(head, mid, tail);
    NameTailCases(filename, secure);
  }

  /** A stored name is `{sid}_`, then the stamp, then the tail. */
  lemma StoredNameParts(sid: string, at: Stamp, filename: string, secure: string -> string)
    ensures StoredName(sid, at, filename, secure)
            == (sid + "_") + (Decimal(at.seconds) + "_" + Hex4(at.random)) + NameTail(filename, secure)
  {
    var d, h, t := Decimal(at.seconds), Hex4(at.random), NameTail(filename, secure);
    assert sid + "_" + d + "_" + h == (sid + "_") + (d + "_" + h);
  }

  lemma NameTailCases(filename: string, secure: string -> string)
    ensures IsImage(filename) ==> NameTail(filename, secure) == ".pdf"
    ensures !IsImage(filename) ==> NameTail(filename, secure) == "_" + secure(filename)
  {
  }

  /** The first and last parts of a three-part concatenation. */
  lemma Bracketed(head: string, mid: string, tail: string)
    ensures |head + mid + tail| == |head| + |mid| + |tail|
    ensures (head + mid + tail)[..|head|] == head
    ensures (head + mid + tail)[|head| + |mid|..] == tail
  {
    var w := head + mid + tail;
    assert forall i :: 0 <= i < |head| ==> w[i] == head[i];
    assert forall i :: 0 <= i < |tail| ==> w[|head| + |mid| + i] == tail[i];
  }

  // ---------------------------------------------------------------------
  // Case-insensitivity of the classification

  lemma LowerKeepsDots(c: char)
    ensures LowerChar(c) == '.' <==> c == '.'
  {
  }

  /** Lower-casing works character by character. */
  lemma LowerSnoc(x: string, c: char)
    ensures Lower(x + [c]) == Lower(x) + [LowerChar(c)]
  {
  }

  lemma DropLast(x: string, c: char)
    ensures (x + [c])[..|x|] == x && (x + [c])[|x|] == c
  {
  }

  /** Lower-casing and taking the text after the last dot commute. */
  lemma {:induction false} AfterLastDotLower(s: string)
    ensures AfterLastDot(Lower(s)) == Lower(AfterLastDot(s))
    decreases |s|
  {
    if s != [] {
      var init, last := s[..|s| - 1], s[|s| - 1];
      assert s == init + [last];
      LowerSnoc(init, last);
      DropLast(Lower(init), LowerChar(last));
      LowerKeepsDots(last);
      if last != '.' {
        AfterLastDotLower(init);
        LowerSnoc(AfterLastDot(init), last);
      }
    }
  }

  /** Names that differ only in letter case get the same extension, so
      PHOTO.PNG and photo.png are both treated as images. */
  lemma ExtensionIgnoresCase(a: string, b: string)
    requires Lower(a) == Lower(b)
    ensures Extension(a) == Extension(b)
    ensures IsImage(a) <==> IsImage(b)
  {
    AfterLastDotLower(a);
    AfterLastDotLower(b);
  }

  // ---------------------------------------------------------------------
  // Distinct stamps give distinct stored names

  lemma {:induction false} DecimalInjective(a: nat, b: nat)
    requires Decimal(a) == Decimal(b)
    ensures a == b
    decreases a
  {
    if a >= 10 && b >= 10 {
      var da, db := Decimal(a), Decimal(b);
      assert da[..|da| - 1] == Decimal(a / 10);
      assert db[..|db| - 1] == Decimal(b / 10);
      DecimalInjective(a / 10, b / 10);
      assert DigitChar(a % 10) == da[|da| - 1] == DigitChar(b % 10);
    }
  }

  lemma HexDigitInjective(a: nat, b: nat)
    requires a < 16 && b < 16 && HexDigit(a) == HexDigit(b)
    ensures a == b
  {
  }

  lemma Hex4Injective(a: uint16, b: uint16)
    requires Hex4(a) == Hex4(b)
    ensures a == b
  {
    var ha, la := a as int / 256, a as int % 256;
    var hb, lb := b as int / 256, b as int % 256;
    HexDigitInjective(ha / 16, hb / 16);
    HexDigitInjective(ha % 16, hb % 16);
    HexDigitInjective(la / 16, lb / 16);
    HexDigitInjective(la % 16, lb % 16);
    assert ha == hb && la == lb;
  }

  /** The first `c` of `x + [c] + y` is at index |x| when x has none. */
  lemma FirstOccurrence(x: string, y: string, c: char)
    requires c !in x
    ensures (x + [c] + y)[|x|] == c
    ensures forall i :: 0 <= i < |x| ==> (x + [c] + y)[i] != c
  {
    assert forall i :: 0 <= i < |x| ==> (x + [c] + y)[i] == x[i];
  }

  /** If two sequences are split at their first `c`, equal sequences give
      equal halves. */
  lemma SplitAtFirst(x: string, y: string, x': string, y': string, c: char)
    requires c !in x && c !in x'
    requires x + [c] + y == x' + [c] + y'
    ensures x == x' && y == y'
  {
    var whole := x + [c] + y;
    FirstOccurrence(x, y, c);
    FirstOccurrence(x', y', c);
    assert |x| == |x'|;
    assert x == whole[..|x|] == x';
    assert y == whole[|x| + 1..] == y';
  }

  /** A student's two uploads made at different clock readings or with
      different random ids are stored under different names, whatever their
      original names. */
  lemma StoredNamesDiffer(sid: string, a: Stamp, b: Stamp, f: string, g: string, secure: string -> string)
    requires a != b
    ensures StoredName(sid, a, f, secure) != StoredName(sid, b, g, secure)
  {
    var ra := Hex4(a.random) + NameTail(f, secure);
    var rb := Hex4(b.random) + NameTail(g, secure);
    StoredNameAfterSid(sid, a, f, secure);
    StoredNameAfterSid(sid, b, g, secure);
    DecimalHasNoUnderscore(a.seconds);
    DecimalHasNoUnderscore(b.seconds);
    if StoredName(sid, a, f, secure) == StoredName(sid, b, g, secure) {
      SplitAtFirst(Decimal(a.seconds), ra, Decimal(b.seconds), rb, '_');
      DecimalInjective(a.seconds, b.seconds);
      assert Hex4(a.random) == ra[..4] == rb[..4] == Hex4(b.random);
      Hex4Injective(a.random, b.random);
    }
  }

  /** What follows `{sid}_` in a stored name. */
  lemma StoredNameAfterSid(sid: string, a: Stamp, f: string, secure: string -> string)
    ensures StoredName(sid, a, f, secure)[|sid| + 1..] == Decimal(a.seconds) + "_" + (Hex4(a.random) + NameTail(f, secure))
  {
    var rest := Decimal(a.seconds) + "_" + (Hex4(a.random) + NameTail(f, secure));
    assert StoredName(sid, a, f, secure) == (sid + "_") + rest;
  }

  lemma DecimalHasNoUnderscore(n: nat)
    ensures '_' !in Decimal(n)
  {
    var d := Decimal(n);
    assert forall i :: 0 <= i < |d| ==> d[i] != '_';
  }
}
