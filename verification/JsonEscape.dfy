/**
  Escaping text for a JSON string (src/gtk/prettymux-open.c:570-593 and
  src/gtk/prettymux_agent_cli.c:66-101) and reading it back as sections 7 and 8.1
  of RFC 8259 say.  Texts are bytes, as C strings are.
 */
module JsonEscape {
  import opened Options
  import opened Sequences

  type Byte = b: int | 0 <= b < 256

  const QUOTE: Byte := 0x22
  const BACKSLASH: Byte := 0x5c

  function HexDigit(d: nat): Byte
    requires d < 16
  {
    if d < 10 then 0x30 + d else 0x61 + d - 10
  }

  function EscapeByte(b: Byte): (r: seq<Byte>)
    ensures 1 <= |r| <= 6
  {
    if b == QUOTE then [BACKSLASH, QUOTE]
    else if b == BACKSLASH then [BACKSLASH, BACKSLASH]
    else if b == 0x0a then [BACKSLASH, 0x6e]
    else if b == 0x0d then [BACKSLASH, 0x72]
    else if b == 0x09 then [BACKSLASH, 0x74]
    else if b < 0x20 then [BACKSLASH, 0x75, 0x30, 0x30, HexDigit(b / 16), HexDigit(b % 16)]
    else [b]
  }

  function Escape(s: seq<Byte>): (r: seq<Byte>)
    ensures |s| <= |r| <= 6 * |s|
  {
    if s == [] then [] else EscapeByte(s[0]) + Escape(s[1..])
  }

  // ---- reading JSON strings ----

  function HexValue(b: Byte): Option<nat> {
    if 0x30 <= b <= 0x39 then Some(b - 0x30)
    else if 0x61 <= b <= 0x66 then Some(b - 0x61 + 10)
    else if 0x41 <= b <= 0x46 then Some(b - 0x41 + 10)
    else None
  }

  /** The number after a backslash and u. */
  function CodeUnit(t: seq<Byte>): (u: Option<nat>)
    ensures u.Some? ==> |t| >= 6 && u.value < 0x10000
  {
    if |t| < 6 || t[0] != BACKSLASH || t[1] != 0x75 then None
    else
      var a, b, c, d := HexValue(t[2]), HexValue(t[3]), HexValue(t[4]), HexValue(t[5]);
      if a.None? || b.None? || c.None? || d.None? then None
      else Some(((a.value * 16 + b.value) * 16 + c.value) * 16 + d.value)
  }

  function Utf8(c: nat): seq<Byte>
    requires c < 0x110000
  {
    if c < 0x80 then [c]
    else if c < 0x800 then [0xc0 + c / 0x40, 0x80 + c % 0x40]
    else if c < 0x10000 then [0xe0 + c / 0x1000, 0x80 + c / 0x40 % 0x40, 0x80 + c % 0x40]
    else [0xf0 + c / 0x40000, 0x80 + c / 0x1000 % 0x40, 0x80 + c / 0x40 % 0x40, 0x80 + c % 0x40]
  }

  function Append(front: seq<Byte>, rest: Option<seq<Byte>>): Option<seq<Byte>> {
    if rest.Some? then Some(front + rest.value) else None
  }

  /** What a two-character escape stands for. */
  function ShortEscape(b: Byte): Option<Byte> {
    if b == QUOTE || b == BACKSLASH || b == 0x2f then Some(b)
    else if b == 0x62 then Some(8)
    else if b == 0x66 then Some(12)
    else if b == 0x6e then Some(10)
    else if b == 0x72 then Some(13)
    else if b == 0x74 then Some(9)
    else None
  }

  /** The text of the inside of a JSON string; None where it is not one. */
  function Decode(t: seq<Byte>): Option<seq<Byte>> {
    if t == [] then Some([])
    else if t[0] == QUOTE || t[0] < 0x20 then None
    else if t[0] != BACKSLASH then Append([t[0]], Decode(t[1..]))
    else if |t| >= 2 && ShortEscape(t[1]).Some? then Append([ShortEscape(t[1]).value], Decode(t[2..]))
    else if CodeUnit(t).None? then None
    else
      var u := CodeUnit(t).value;
      if 0xd800 <= u < 0xdc00 then
        var v := CodeUnit(t[6..]);
        if v.Some? && 0xdc00 <= v.value < 0xe000
        then Append(Utf8(0x10000 + (u - 0xd800) * 0x400 + (v.value - 0xdc00)), Decode(t[12..]))
        else None
      else if 0xdc00 <= u < 0xe000 then None
      else Append(Utf8(u), Decode(t[6..]))
  }

  /** The length of the well-formed UTF-8 sequence at the front, 0 if there is
      none. */
  function Utf8Length(s: seq<Byte>): (n: nat)
    ensures n <= |s| && n <= 4
  {
    if s == [] then 0
    else if s[0] < 0x80 then 1
    else if 0xc2 <= s[0] <= 0xdf then if Continues(s, 1) then 2 else 0
    else if 0xe0 <= s[0] <= 0xef then
      if && Continues(s, 1) && Continues(s, 2)
         && (s[0] == 0xe0 ==> s[1] >= 0xa0) && (s[0] == 0xed ==> s[1] <= 0x9f) then 3 else 0
    else if 0xf0 <= s[0] <= 0xf4 then
      if && Continues(s, 1) && Continues(s, 2) && Continues(s, 3)
         && (s[0] == 0xf0 ==> s[1] >= 0x90) && (s[0] == 0xf4 ==> s[1] <= 0x8f) then 4 else 0
    else 0
  }

  predicate Continues(s: seq<Byte>, i: nat) {
    i < |s| && 0x80 <= s[i] <= 0xbf
  }

  predicate ValidUtf8(s: seq<Byte>) {
    s == [] || (Utf8Length(s) > 0 && ValidUtf8(s[Utf8Length(s)..]))
  }

  /** A JSON text is UTF-8. */
  function DecodeJson(t: seq<Byte>): Option<seq<Byte>> {
    if ValidUtf8(t) then Decode(t) else None
  }

  // ---- there and back ----

  /** What section 7 of RFC 8259 lets stand for itself does so; a quote, a
      backslash, a tab and the ends of lines take two bytes, other control
      characters six. */
  lemma EscapesOnlyWhatItMust(b: Byte)
    ensures EscapeByte(b) == [b] <==> b >= 0x20 && b != QUOTE && b != BACKSLASH
    ensures |EscapeByte(b)| == 2 <==> b == QUOTE || b == BACKSLASH || b == 9 || b == 10 || b == 13
    ensures |EscapeByte(b)| == 6 <==> b < 0x20 && b != 9 && b != 10 && b != 13
  {
  }

  predicate IsScalar(c: nat) {
    c < 0xd800 || 0xe000 <= c < 0x110000
  }

  lemma SameLength(t: seq<Byte>, rest: seq<Byte>)
    requires Utf8Length(t) == |t| > 0
    ensures Utf8Length(t + rest) == |t|
  {
    assert forall i :: 0 <= i < |t| ==> (t + rest)[i] == t[i];
  }

  /** The encoding of a character is one well-formed sequence ... */
  lemma EncodingIsWellFormed(c: nat, rest: seq<Byte>)
    requires IsScalar(c)
    ensures Utf8Length(Utf8(c) + rest) == |Utf8(c)|
  {
    if c < 0x80 {
    } else if c < 0x800 {
      TwoBytes(c);
    } else if c < 0x10000 {
      ThreeBytes(c);
    } else {
      FourBytes(c);
    }
    SameLength(Utf8(c), rest);
  }

  lemma TwoBytes(c: nat)
    requires 0x80 <= c < 0x800
    ensures Utf8Length(Utf8(c)) == |Utf8(c)| == 2
  {
  }

  lemma ThreeBytes(c: nat)
    requires IsScalar(c) && 0x800 <= c < 0x10000
    ensures Utf8Length(Utf8(c)) == |Utf8(c)| == 3
  {
    var t := Utf8(c);
    assert t[0] == 0xe0 ==> c / 0x40 >= 0x20;
    assert t[0] == 0xed ==> c < 0xd800;
  }

  lemma FourBytes(c: nat)
    requires 0x10000 <= c < 0x110000
    ensures Utf8Length(Utf8(c)) == |Utf8(c)| == 4
  {
    var t := Utf8(c);
    assert t[0] == 0xf0 ==> c / 0x1000 >= 0x10;
    assert t[0] == 0xf4 ==> c / 0x1000 < 0x110;
  }

  /** ... and every well-formed sequence is the encoding of one. */
  lemma WellFormedIsEncoding(s: seq<Byte>) returns (c: nat)
    requires Utf8Length(s) > 0
    ensures IsScalar(c) && s[..Utf8Length(s)] == Utf8(c)
  {
    var n := Utf8Length(s);
    if n == 1 {
      c := s[0];
    } else if n == 2 {
      c := Number(s[0] as int - 0xc0, s[1] as int - 0x80);
    } else if n == 3 {
      c := Number(Number(s[0] as int - 0xe0, s[1] as int - 0x80), s[2] as int - 0x80);
    } else {
      c := FourBytesOf(s);
    }
  }

  lemma FourBytesOf(s: seq<Byte>) returns (c: nat)
    requires Utf8Length(s) == 4
    ensures IsScalar(c) && s[..4] == Utf8(c)
  {
    c := Number(Number(Number(s[0] as int - 0xf0, s[1] as int - 0x80), s[2] as int - 0x80), s[3] as int - 0x80);
  }

  /** One more digit to the base 64. */
  function Number(front: nat, digit: nat): (n: nat)
    requires digit < 0x40
    ensures n / 0x40 == front && n % 0x40 == digit
  {
    front * 0x40 + digit
  }

  lemma DecodeOneByte(b: Byte, rest: seq<Byte>)
    requires b != 0
    ensures Decode(EscapeByte(b) + rest) == Append([b], Decode(rest))
  {
    var t := EscapeByte(b) + rest;
    assert t[0] == EscapeByte(b)[0];
    if |EscapeByte(b)| == 1 {
      assert t[1..] == rest;
    } else if |EscapeByte(b)| == 2 {
      assert t[1] == EscapeByte(b)[1] && t[2..] == rest;
    } else {
      assert t[1] == 0x75 && t[2] == 0x30 && t[3] == 0x30;
      assert t[4] == HexDigit(b / 16) && t[5] == HexDigit(b % 16);
      assert t[6..] == rest;
      assert CodeUnit(t) == Some(b);
    }
  }

  lemma {:induction false} DecodeInverts(s: seq<Byte>)
    requires 0 !in s
    ensures Decode(Escape(s)) == Some(s)
  {
    if s != [] {
      DecodeInverts(s[1..]);
      DecodeOneByte(s[0], Escape(s[1..]));
      assert [s[0]] + s[1..] == s;
    }
  }

  predicate Ascii(t: seq<Byte>) {
    forall i :: 0 <= i < |t| ==> t[i] < 0x80
  }

  lemma {:induction false} ValidAfterAscii(a: seq<Byte>, t: seq<Byte>)
    requires Ascii(a)
    ensures ValidUtf8(a + t) <==> ValidUtf8(t)
  {
    if a == [] {
      assert a + t == t;
    } else {
      assert (a + t)[1..] == a[1..] + t;
      ValidAfterAscii(a[1..], t);
    }
  }

  /** Bytes beyond ASCII pass unchanged, and nothing else becomes one. */
  lemma {:induction false} EscapeKeepsHighBytes(s: seq<Byte>, n: nat)
    requires n <= |s| && forall i :: 0 <= i < n ==> s[i] >= 0x80
    ensures Escape(s) == s[..n] + Escape(s[n..])
  {
    if n == 0 {
      assert s[0..] == s && s[..0] + Escape(s) == Escape(s);
    } else {
      EscapeKeepsHighBytes(s[1..], n - 1);
      assert s[1..][n - 1..] == s[n..] && s[..n] == [s[0]] + s[1..][..n - 1];
      ConcatAssociates([s[0]], s[1..][..n - 1], Escape(s[n..]));
    }
  }

  lemma EscapeLowFirst(s: seq<Byte>)
    requires s != [] && s[0] < 0x80
    ensures Escape(s)[0] < 0x80
  {
  }

  /** How many bytes beyond ASCII there are at the front. */
  function HighRun(s: seq<Byte>): (n: nat)
    ensures n <= |s| && (forall i :: 0 <= i < n ==> s[i] >= 0x80) && (n < |s| ==> s[n] < 0x80)
  {
    if s == [] || s[0] < 0x80 then 0
    else
      var n := HighRun(s[1..]) + 1;
      assert forall i :: 1 <= i < n ==> s[i] == s[1..][i - 1];
      n
  }

  /** The sequence at the front lies within the run of bytes beyond ASCII. */
  lemma FrontDecides(s: seq<Byte>, t: seq<Byte>, n: nat)
    requires 0 < n <= |s| && n <= |t| && s[..n] == t[..n] && s[0] >= 0x80
    requires n < |s| ==> s[n] < 0x80
    requires n < |t| ==> t[n] < 0x80
    ensures Utf8Length(s) == Utf8Length(t) <= n
  {
    assert forall i :: 0 <= i < n ==> s[i] == s[..n][i] == t[..n][i] == t[i];
    assert forall i :: 0 < i < 4 && i < n ==> (Continues(s, i) <==> Continues(t, i));
    assert n < 4 ==> !Continues(s, n) && !Continues(t, n);
  }

  lemma SameFront(s: seq<Byte>)
    requires s != [] && s[0] >= 0x80
    ensures Utf8Length(Escape(s)) == Utf8Length(s) <= HighRun(s)
  {
    var n := HighRun(s);
    EscapeKeepsHighBytes(s, n);
    if n < |s| {
      EscapeLowFirst(s[n..]);
    }
    FrontDecides(s, Escape(s), n);
  }

  /** The escaped text is UTF-8 exactly when the text is. */
  lemma {:induction false} EscapeKeepsUtf8(s: seq<Byte>)
    ensures ValidUtf8(Escape(s)) <==> ValidUtf8(s)
    decreases |s|
  {
    if s != [] {
      if s[0] < 0x80 {
        EscapeKeepsUtf8(s[1..]);
        ValidAfterAscii(EscapeByte(s[0]), Escape(s[1..]));
      } else {
        var n := Utf8Length(s);
        SameFront(s);
        if n > 0 {
          EscapeKeepsUtf8(s[n..]);
          EscapeKeepsHighBytes(s, n);
          assert Escape(s)[n..] == Escape(s[n..]);
        }
      }
    }
  }

  /** Reading an escaped text gives the text back exactly when it is UTF-8;
      otherwise what was written is not JSON. */
  lemma EscapedReadsBack(s: seq<Byte>)
    requires 0 !in s
    ensures DecodeJson(Escape(s)) == if ValidUtf8(s) then Some(s) else None
  {
    EscapeKeepsUtf8(s);
    DecodeInverts(s);
  }

  // ---- the two escapers ----

  lemma {:induction false} EscapePrefix(s: seq<Byte>, i: nat)
    requires i < |s|
    ensures Escape(s[..i + 1]) == Escape(s[..i]) + EscapeByte(s[i])
  {
    if i == 0 {
      assert s[..1] == [s[0]] && [s[0]][1..] == [];
    } else {
      EscapePrefix(s[1..], i - 1);
      assert s[1..][..i] == s[..i + 1][1..] && s[1..][..i - 1] == s[..i][1..];
      ConcatAssociates(EscapeByte(s[0]), Escape(s[..i][1..]), EscapeByte(s[i]));
    }
  }

  /** The command-line escaper: a buffer of six bytes for each, and one, and a
      pointer `p` that moves through it.  For a control character it lets sprintf
      write the terminating zero too. */
  method EscapeInBuffer(s: seq<Byte>) returns (out: array<Byte>, p: nat)
    ensures fresh(out) && out.Length == 6 * |s| + 1
    ensures p < out.Length && out[..p] == Escape(s) && out[p] == 0
  {
    out := new Byte[6 * |s| + 1];
    p := 0;
    for i := 0 to |s|
      invariant p <= 6 * i && out[..p] == Escape(s[..i])
    {
      EscapePrefix(s, i);
      p := WriteEscaped(out, p, s[i]);
    }
    assert s[..|s|] == s;
    out[p] := 0;
  }

  method WriteEscaped(out: array<Byte>, p: nat, b: Byte) returns (p': nat)
    requires p + 7 <= out.Length
    modifies out
    ensures p' == p + |EscapeByte(b)|
    ensures out[..p'] == old(out[..p]) + EscapeByte(b)
  {
    if b == QUOTE {
      out[p], out[p + 1] := BACKSLASH, QUOTE;
      return p + 2;
    } else if b == BACKSLASH {
      out[p], out[p + 1] := BACKSLASH, BACKSLASH;
      return p + 2;
    } else if b == 0x0a {
      out[p], out[p + 1] := BACKSLASH, 0x6e;
      return p + 2;
    } else if b == 0x0d {
      out[p], out[p + 1] := BACKSLASH, 0x72;
      return p + 2;
    } else if b == 0x09 {
      out[p], out[p + 1] := BACKSLASH, 0x74;
      return p + 2;
    } else if b < 0x20 {
      out[p], out[p + 1], out[p + 2], out[p + 3] := BACKSLASH, 0x75, 0x30, 0x30;
      out[p + 4], out[p + 5], out[p + 6] := HexDigit(b / 16), HexDigit(b % 16), 0;
      return p + 6;
    } else {
      out[p] := b;
      return p + 1;
    }
  }

  /** The agent's escaper appends to a growing string; no text is an empty one. */
  method EscapeGrowing(input: Option<seq<Byte>>) returns (out: seq<Byte>)
    ensures out == Escape(if input.Some? then input.value else [])
  {
    out := [];
    if input.None? {
      return;
    }
    var s := input.value;
    for i := 0 to |s|
      invariant out == Escape(s[..i])
    {
      EscapePrefix(s, i);
      out := out + EscapeByte(s[i]);
    }
    assert s[..|s|] == s;
  }
}
