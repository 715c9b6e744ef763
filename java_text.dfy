/** The parts of java.lang that the core relies on: signed bytes, `String.getBytes(UTF_8)`,
    `String.trim()`, `String.split(",")` and the `@NotBlank` test built on `trim()`. */
module JavaText {

  /** A Java `byte`: a signed 8-bit value. */
  type JByte = b: int | -128 <= b < 128

  /** `0xff & b`: the unsigned value of a byte's bit pattern. */
  function Unsigned(b: JByte): (v: int)
    ensures 0 <= v < 256
    ensures v % 256 == b % 256
  {
    if b < 0 then b + 256 else b
  }

  /** The byte whose bit pattern is the unsigned value `v` (a narrowing `(byte) v` cast). */
  function Signed(v: int): (b: JByte)
    requires 0 <= v < 256
    ensures Unsigned(b) == v
  {
    if v < 128 then v else v - 256
  }

  // ---------------------------------------------------------------- UTF-8

  /** The UTF-8 bytes of one code point (RFC 3629). */
  function EncodeChar(c: char): (r: seq<JByte>)
    ensures 1 <= |r| <= 4
    ensures |r| == 1 <==> c as int < 0x80
    ensures c as int < 0x80 ==> r[0] == c as int
  {
    var cp := c as int;
    if cp < 0x80 then
      [cp]
    else if cp < 0x800 then
      [Signed(0xC0 + cp / 0x40), Signed(0x80 + cp % 0x40)]
    else if cp < 0x1_0000 then
      [Signed(0xE0 + cp / 0x1000), Signed(0x80 + (cp / 0x40) % 0x40), Signed(0x80 + cp % 0x40)]
    else
      [Signed(0xF0 + cp / 0x4_0000), Signed(0x80 + (cp / 0x1000) % 0x40),
       Signed(0x80 + (cp / 0x40) % 0x40), Signed(0x80 + cp % 0x40)]
  }

  /** `text.getBytes(StandardCharsets.UTF_8)`. */
  function Utf8Encode(s: string): (r: seq<JByte>)
    ensures |s| <= |r| <= 4 * |s|
  {
    if |s| == 0 then [] else EncodeChar(s[0]) + Utf8Encode(s[1..])
  }

  predicate IsAscii(s: string) {
    forall i :: 0 <= i < |s| ==> s[i] as int < 0x80
  }

  /** An ASCII string encodes to one byte per character, each byte the character's code. */
  lemma {:induction false} Utf8Ascii(s: string)
    requires IsAscii(s)
    ensures |Utf8Encode(s)| == |s|
    ensures forall i :: 0 <= i < |s| ==> Utf8Encode(s)[i] == s[i] as int
  {
    if |s| > 0 {
      assert IsAscii(s[1..]) by {
        forall i | 0 <= i < |s[1..]| ensures s[1..][i] as int < 0x80 { assert s[1..][i] == s[i + 1]; }
      }
      Utf8Ascii(s[1..]);
      var r := Utf8Encode(s);
      assert r == [s[0] as int] + Utf8Encode(s[1..]);
      forall i | 0 <= i < |s| ensures r[i] == s[i] as int {
        if i > 0 { assert r[i] == Utf8Encode(s[1..])[i - 1]; assert s[1..][i - 1] == s[i]; }
      }
    }
  }

  /** Distinct ASCII strings have distinct UTF-8 encodings. */
  lemma Utf8AsciiInjective(s: string, t: string)
    requires IsAscii(s) && IsAscii(t) && s != t
    ensures Utf8Encode(s) != Utf8Encode(t)
  {
    Utf8Ascii(s);
    Utf8Ascii(t);
    if |s| == |t| {
      var i :| 0 <= i < |s| && s[i] != t[i];
      assert Utf8Encode(s)[i] != Utf8Encode(t)[i];
    }
  }

  /** How many bytes a UTF-8 sequence takes, read from its lead byte's unsigned value. */
  function SequenceLength(lead: int): (n: nat) {
    if lead < 0x80 then 1 else if lead < 0xE0 then 2 else if lead < 0xF0 then 3 else 4
  }

  /** The code point a well-formed sequence of one to four bytes stands for. */
  function DecodeChar(r: seq<JByte>): (cp: int)
    requires 1 <= |r| <= 4
  {
    if |r| == 1 then Unsigned(r[0])
    else if |r| == 2 then (Unsigned(r[0]) - 0xC0) * 0x40 + (Unsigned(r[1]) - 0x80)
    else if |r| == 3 then
      (Unsigned(r[0]) - 0xE0) * 0x1000 + (Unsigned(r[1]) - 0x80) * 0x40 + (Unsigned(r[2]) - 0x80)
    else
      (Unsigned(r[0]) - 0xF0) * 0x4_0000 + (Unsigned(r[1]) - 0x80) * 0x1000
      + (Unsigned(r[2]) - 0x80) * 0x40 + (Unsigned(r[3]) - 0x80)
  }

  /** A character's bytes decode back to it, and their lead byte tells how many there are. */
  lemma EncodeCharRoundTrip(c: char)
    ensures DecodeChar(EncodeChar(c)) == c as int
    ensures SequenceLength(Unsigned(EncodeChar(c)[0])) == |EncodeChar(c)|
  {
    var cp := c as int;
    if cp >= 0x80 {
      assert cp == (cp / 0x40) * 0x40 + cp % 0x40;
      if cp >= 0x800 {
        assert cp / 0x40 == (cp / 0x1000) * 0x40 + (cp / 0x40) % 0x40;
        if cp >= 0x1_0000 {
          assert cp / 0x1000 == (cp / 0x4_0000) * 0x40 + (cp / 0x1000) % 0x40;
        }
      }
    }
  }

  lemma EncodeCharInjective(c: char, d: char)
    requires EncodeChar(c) == EncodeChar(d)
    ensures c == d
  {
    EncodeCharRoundTrip(c);
    EncodeCharRoundTrip(d);
  }

  /** UTF-8 is prefix-free, so equal encodings come from equal strings. */
  lemma {:induction false} Utf8EncodeInjective(s: string, t: string)
    requires Utf8Encode(s) == Utf8Encode(t)
    ensures s == t
  {
    if |s| > 0 && |t| > 0 {
      var e := Utf8Encode(s);
      var a, b := EncodeChar(s[0]), EncodeChar(t[0]);
      EncodeCharRoundTrip(s[0]);
      EncodeCharRoundTrip(t[0]);
      assert e == a + Utf8Encode(s[1..]) && e == b + Utf8Encode(t[1..]);
      assert a[0] == e[0] == b[0];
      assert |a| == |b|;
      assert a == e[..|a|] == b;
      EncodeCharInjective(s[0], t[0]);
      assert Utf8Encode(s[1..]) == e[|a|..] == Utf8Encode(t[1..]);
      Utf8EncodeInjective(s[1..], t[1..]);
      assert s == [s[0]] + s[1..] && t == [t[0]] + t[1..];
    }
  }

  // ---------------------------------------------------------------- trim

  /** The characters `String.trim()` strips: every code point up to and including space. */
  predicate IsTrimmable(c: char) { c as int <= 0x20 }

  /** The first index at or after `i` that holds a character `trim()` keeps, or |s|. */
  function TrimFrom(s: string, i: nat): (st: nat)
    requires i <= |s|
    ensures i <= st <= |s|
    ensures forall j :: i <= j < st ==> IsTrimmable(s[j])
    ensures st < |s| ==> !IsTrimmable(s[st])
    decreases |s| - i
  {
    if i < |s| && IsTrimmable(s[i]) then TrimFrom(s, i + 1) else i
  }

  /** The end of `s[st..len]` once trailing characters `trim()` strips are dropped. */
  function TrimUpTo(s: string, st: nat, len: nat): (e: nat)
    requires st <= len <= |s|
    ensures st <= e <= len
    ensures forall j :: e <= j < len ==> IsTrimmable(s[j])
    ensures e > st ==> !IsTrimmable(s[e - 1])
    decreases len - st
  {
    if len > st && IsTrimmable(s[len - 1]) then TrimUpTo(s, st, len - 1) else len
  }

  /** `s.trim()`: the infix of `s` left after removing leading and trailing characters <= ' '. */
  function Trim(s: string): (r: string)
    ensures r != [] ==> !IsTrimmable(r[0]) && !IsTrimmable(r[|r| - 1])
    ensures var k := TrimFrom(s, 0);
              && k + |r| <= |s| && r == s[k..k + |r|]
              && (forall i :: 0 <= i < k ==> IsTrimmable(s[i]))
              && (forall i :: k + |r| <= i < |s| ==> IsTrimmable(s[i]))
  {
    var st := TrimFrom(s, 0);
    var e := TrimUpTo(s, st, |s|);
    s[st..e]
  }

  /** Hibernate Validator's `@NotBlank`: the trimmed string is not empty. */
  predicate NotBlank(s: string) { Trim(s) != [] }

  lemma NotBlankIff(s: string)
    ensures NotBlank(s) <==> exists i :: 0 <= i < |s| && !IsTrimmable(s[i])
  {
    var r := Trim(s);
    var k := TrimFrom(s, 0);
    if r != [] { assert !IsTrimmable(s[k]); }
  }

  // ---------------------------------------------------------------- split

  /** Every piece between occurrences of `sep`, empty pieces included. */
  function SplitAll(s: string, sep: char): (parts: seq<string>)
    ensures |parts| >= 1
    ensures forall i :: 0 <= i < |parts| ==> sep !in parts[i]
  {
    if |s| == 0 then [""]
    else
      var rest := SplitAll(s[1..], sep);
      if s[0] == sep then [""] + rest else [[s[0]] + rest[0]] + rest[1..]
  }

  /** The pieces joined back with `sep`: the partner of SplitAll. */
  function Join(parts: seq<string>, sep: char): (s: string)
    requires |parts| >= 1
  {
    if |parts| == 1 then parts[0] else parts[0] + [sep] + Join(parts[1..], sep)
  }

  /** The characters of `s` before the first `sep`, or all of `s` when there is none. */
  function BeforeFirst(s: string, sep: char): (prefix: string) {
    if |s| == 0 || s[0] == sep then "" else [s[0]] + BeforeFirst(s[1..], sep)
  }

  function DropTrailingEmpty(parts: seq<string>): (r: seq<string>)
    ensures |r| <= |parts| && r == parts[..|r|]
    ensures r != [] ==> r[|r| - 1] != ""
    ensures forall i :: |r| <= i < |parts| ==> parts[i] == ""
  {
    if |parts| == 0 then []
    else if parts[|parts| - 1] == "" then DropTrailingEmpty(parts[..|parts| - 1])
    else parts
  }

  /** `s.split(String.valueOf(sep))` for a separator that is not a regular-expression
      metacharacter: the pieces, less trailing empty ones; a string without the separator
      yields itself, even when it is empty. */
  function Split(s: string, sep: char): (parts: seq<string>)
    ensures forall i :: 0 <= i < |parts| ==> sep !in parts[i]
    ensures sep in s && parts != [] ==> parts[|parts| - 1] != ""
    ensures sep !in s ==> parts == [s]
  {
    if sep !in s then [s] else DropTrailingEmpty(SplitAll(s, sep))
  }

  lemma {:induction false} SplitAllJoin(s: string, sep: char)
    ensures Join(SplitAll(s, sep), sep) == s
  {
    if |s| > 0 {
      SplitAllJoin(s[1..], sep);
      var rest := SplitAll(s[1..], sep);
      if s[0] != sep {
        if |rest| == 1 {
          assert SplitAll(s, sep) == [[s[0]] + rest[0]];
        } else {
          var parts := SplitAll(s, sep);
          assert parts[1..] == rest[1..];
          assert Join(rest, sep) == rest[0] + [sep] + Join(rest[1..], sep);
        }
      } else {
        assert SplitAll(s, sep)[1..] == rest;
      }
    }
  }

  lemma {:induction false} SplitAllFirst(s: string, sep: char)
    ensures SplitAll(s, sep)[0] == BeforeFirst(s, sep)
  {
    if |s| > 0 { SplitAllFirst(s[1..], sep); }
  }

  /** All pieces are empty exactly when the string is made of separators only. */
  lemma {:induction false} SplitAllEmpty(s: string, sep: char)
    ensures (forall i :: 0 <= i < |SplitAll(s, sep)| ==> SplitAll(s, sep)[i] == "")
            <==> (forall i :: 0 <= i < |s| ==> s[i] == sep)
  {
    if |s| > 0 {
      SplitAllEmpty(s[1..], sep);
      var rest := SplitAll(s[1..], sep);
      var parts := SplitAll(s, sep);
      if s[0] == sep {
        assert parts == [""] + rest;
        if forall i :: 0 <= i < |parts| ==> parts[i] == "" {
          forall j | 0 <= j < |rest| ensures rest[j] == "" {
            assert rest[j] == parts[j + 1];
          }
          forall j | 0 <= j < |s| ensures s[j] == sep {
            if j > 0 { assert s[j] == s[1..][j - 1]; }
          }
        }
        if forall i :: 0 <= i < |s| ==> s[i] == sep {
          forall j | 0 <= j < |s[1..]| ensures s[1..][j] == sep {
            assert s[1..][j] == s[j + 1];
          }
          forall j | 0 <= j < |parts| ensures parts[j] == "" {
            if j > 0 { assert parts[j] == rest[j - 1]; }
          }
        }
      } else {
        assert parts[0] != "";
      }
    }
  }

  /** What `split(",")[0]` sees: no element at all when the string is separators only,
      otherwise the text before the first separator. */
  lemma SplitFirst(s: string, sep: char)
    requires |s| > 0
    ensures |Split(s, sep)| == 0 <==> forall i :: 0 <= i < |s| ==> s[i] == sep
    ensures |Split(s, sep)| > 0 ==> Split(s, sep)[0] == BeforeFirst(s, sep)
  {
    SplitAllFirst(s, sep);
    SplitAllEmpty(s, sep);
    if sep !in s {
      assert s[0] != sep;
      assert BeforeFirst(s, sep) == s by { BeforeFirstNoSep(s, sep); }
    } else {
      var parts := SplitAll(s, sep);
      var r := DropTrailingEmpty(parts);
      if r == [] {
        assert forall i :: 0 <= i < |parts| ==> parts[i] == "";
      } else {
        assert r[0] == parts[0];
      }
    }
  }

  lemma {:induction false} BeforeFirstNoSep(s: string, sep: char)
    requires sep !in s
    ensures BeforeFirst(s, sep) == s
  {
    if |s| > 0 {
      assert sep !in s[1..] by { assert forall c :: c in s[1..] ==> c in s; }
      BeforeFirstNoSep(s[1..], sep);
    }
  }
}
