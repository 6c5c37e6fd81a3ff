/** Page tokens: unpadded base64url (sections 5 and 3.2 of RFC 4648) over "pk|rk". */
module Cursors {
  import opened Text

  type byte = n: nat | n < 256
  type sextet = n: nat | n < 64

  // A string of bytes, one character below 256 for each byte.
  predicate IsBytes(s: string) {
    forall i | 0 <= i < |s| :: s[i] as int < 256
  }

  type ByteString = s: string | IsBytes(s)

  function ToBytes(s: ByteString): seq<byte> {
    seq(|s|, i requires 0 <= i < |s| => s[i] as int)
  }

  function FromBytes(b: seq<byte>): ByteString {
    seq(|b|, i requires 0 <= i < |b| => b[i] as char)
  }

  // ---------- base64url ----------

  function Symbol(n: sextet): char {
    if n < 26 then 'A' + n as char
    else if n < 52 then 'a' + (n - 26) as char
    else if n < 62 then '0' + (n - 52) as char
    else if n == 62 then '-' else '_'
  }

  function SymbolValue(c: char): Option<sextet> {
    if 'A' <= c <= 'Z' then Some((c - 'A') as nat)
    else if 'a' <= c <= 'z' then Some((c - 'a') as nat + 26)
    else if '0' <= c <= '9' then Some((c - '0') as nat + 52)
    else if c == '-' then Some(62)
    else if c == '_' then Some(63)
    else None
  }

  function Encode(b: seq<byte>): string {
    if |b| == 0 then ""
    else if |b| == 1 then [Symbol(b[0] / 4), Symbol(b[0] % 4 * 16)]
    else if |b| == 2 then [Symbol(b[0] / 4), Symbol(b[0] % 4 * 16 + b[1] / 16), Symbol(b[1] % 16 * 4)]
    else [Symbol(b[0] / 4), Symbol(b[0] % 4 * 16 + b[1] / 16), Symbol(b[1] % 16 * 4 + b[2] / 64), Symbol(b[2] % 64)]
         + Encode(b[3..])
  }

  // Carriage returns and line feeds are skipped, left-over low bits of a short last group are
  // ignored, and one left-over symbol or a character outside the alphabet is an error.
  function Decode(s: string): Option<seq<byte>> {
    DecodeGroups(WithoutNewlines(s))
  }

  function WithoutNewlines(s: string): string {
    if s == "" then ""
    else if s[0] == '\r' || s[0] == '\n' then WithoutNewlines(s[1..])
    else [s[0]] + WithoutNewlines(s[1..])
  }

  function DecodeGroups(s: string): Option<seq<byte>> {
    if |s| == 0 then Some([])
    else if |s| == 1 then None
    else
      var v0, v1 := SymbolValue(s[0]), SymbolValue(s[1]);
      if v0.None? || v1.None? then None
      else
        var first := v0.value * 4 + v1.value / 16;
        if |s| == 2 then Some([first])
        else
          var v2 := SymbolValue(s[2]);
          if v2.None? then None
          else
            var second := v1.value % 16 * 16 + v2.value / 4;
            if |s| == 3 then Some([first, second])
            else
              var v3, rest := SymbolValue(s[3]), DecodeGroups(s[4..]);
              if v3.None? || rest.None? then None
              else Some([first, second, v2.value % 4 * 64 + v3.value] + rest.value)
  }

  lemma {:induction false} WithoutNewlinesKeeps(s: string)
    requires forall i | 0 <= i < |s| :: s[i] != '\r' && s[i] != '\n'
    ensures WithoutNewlines(s) == s
  {
    if s != "" {
      WithoutNewlinesKeeps(s[1..]);
    }
  }

  lemma {:induction false} EncodeUsesAlphabet(b: seq<byte>)
    ensures forall i | 0 <= i < |Encode(b)| :: Encode(b)[i] != '\r' && Encode(b)[i] != '\n'
    ensures b != [] ==> Encode(b) != ""
  {
    if |b| >= 3 {
      EncodeUsesAlphabet(b[3..]);
    }
  }

  lemma SymbolRoundTrip(n: sextet)
    ensures SymbolValue(Symbol(n)) == Some(n)
  {
  }

  // The sextets of a group give its bytes back.
  lemma Regroup(a: byte, b: byte, c: byte)
    ensures a / 4 * 4 + (a % 4 * 16 + b / 16) / 16 == a
    ensures (a % 4 * 16 + b / 16) % 16 * 16 + (b % 16 * 4 + c / 64) / 4 == b
    ensures (b % 16 * 4 + c / 64) % 4 * 64 + c % 64 == c
  {
    assert (a % 4 * 16 + b / 16) / 16 == a % 4;
    assert (a % 4 * 16 + b / 16) % 16 == b / 16;
    assert (b % 16 * 4 + c / 64) / 4 == b % 16;
    assert (b % 16 * 4 + c / 64) % 4 == c / 64;
  }

  lemma OneByte(b0: byte)
    ensures DecodeGroups([Symbol(b0 / 4), Symbol(b0 % 4 * 16)]) == Some([b0])
  {
    SymbolRoundTrip(b0 / 4);
    SymbolRoundTrip(b0 % 4 * 16);
    Regroup(b0, 0, 0);
  }

  lemma TwoBytes(b0: byte, b1: byte)
    ensures DecodeGroups([Symbol(b0 / 4), Symbol(b0 % 4 * 16 + b1 / 16), Symbol(b1 % 16 * 4)]) == Some([b0, b1])
  {
    SymbolRoundTrip(b0 / 4);
    SymbolRoundTrip(b0 % 4 * 16 + b1 / 16);
    SymbolRoundTrip(b1 % 16 * 4);
    Regroup(b0, b1, 0);
  }

  lemma FullGroup(b0: byte, b1: byte, b2: byte, tail: string)
    requires DecodeGroups(tail).Some?
    ensures DecodeGroups([Symbol(b0 / 4), Symbol(b0 % 4 * 16 + b1 / 16),
                          Symbol(b1 % 16 * 4 + b2 / 64), Symbol(b2 % 64)] + tail)
            == Some([b0, b1, b2] + DecodeGroups(tail).value)
  {
    SymbolRoundTrip(b0 / 4);
    SymbolRoundTrip(b0 % 4 * 16 + b1 / 16);
    SymbolRoundTrip(b1 % 16 * 4 + b2 / 64);
    SymbolRoundTrip(b2 % 64);
    Regroup(b0, b1, b2);
    var group := [Symbol(b0 / 4), Symbol(b0 % 4 * 16 + b1 / 16), Symbol(b1 % 16 * 4 + b2 / 64), Symbol(b2 % 64)];
    assert (group + tail)[4..] == tail;
  }

  lemma {:induction false} DecodeUndoesEncode(b: seq<byte>)
    ensures DecodeGroups(Encode(b)) == Some(b)
  {
    if |b| == 1 {
      OneByte(b[0]);
      assert b == [b[0]];
    } else if |b| == 2 {
      TwoBytes(b[0], b[1]);
      assert b == [b[0], b[1]];
    } else if |b| >= 3 {
      DecodeUndoesEncode(b[3..]);
      FullGroup(b[0], b[1], b[2], Encode(b[3..]));
      assert b == [b[0], b[1], b[2]] + b[3..];
    }
  }

  // ---------- the encoding by its bits ----------

  const ALPHABET := UPPER + LOWER + DIGITS + "-_"

  lemma SymbolIs(n: sextet)
    ensures Symbol(n) == ALPHABET[n]
  {
    assert forall i | 0 <= i < 26 :: UPPER[i] == 'A' + i as char;
    assert forall i | 0 <= i < 26 :: LOWER[i] == 'a' + i as char;
    assert forall i | 0 <= i < 10 :: DIGITS[i] == '0' + i as char;
  }

  function ByteAt(b: seq<byte>, i: nat): byte { if i < |b| then b[i] else 0 }

  // Symbol k stands for bits 6k to 6k + 5 of the bytes, zero beyond their end: each three bytes make four symbols.
  function Sextet(b: seq<byte>, k: nat): sextet {
    var i := k / 4 * 3;
    match k % 4
    case 0 => ByteAt(b, i) / 4
    case 1 => ByteAt(b, i) % 4 * 16 + ByteAt(b, i + 1) / 16
    case 2 => ByteAt(b, i + 1) % 16 * 4 + ByteAt(b, i + 2) / 64
    case _ => ByteAt(b, i + 2) % 64
  }

  lemma NextGroup(b: seq<byte>, k: nat)
    requires |b| >= 3 && k >= 4
    ensures Sextet(b, k) == Sextet(b[3..], k - 4)
  {
    assert k / 4 * 3 == (k - 4) / 4 * 3 + 3 && k % 4 == (k - 4) % 4;
    assert forall i: nat :: ByteAt(b, i + 3) == ByteAt(b[3..], i);
  }

  // Tokens are unpadded base64url: a symbol for each six bits begun.
  lemma {:induction false} EncodedBits(b: seq<byte>)
    ensures |Encode(b)| == (8 * |b| + 5) / 6
    ensures forall k | 0 <= k < |Encode(b)| :: Encode(b)[k] == Symbol(Sextet(b, k))
  {
    if |b| >= 3 {
      EncodedBits(b[3..]);
      forall k | 4 <= k < |Encode(b)|
        ensures Encode(b)[k] == Symbol(Sextet(b, k))
      {
        NextGroup(b, k);
        assert Encode(b)[k] == Encode(b[3..])[k - 4];
      }
    }
  }

  // ---------- cursors ----------

  datatype Cursor = Cursor(pk: string, rk: string)

  function EncodeCursor(pk: ByteString, rk: ByteString): string {
    Encode(ToBytes(pk + "|" + rk))
  }

  function DecodeCursor(s: string): Option<Cursor> {
    var b := Decode(s);
    if b.None? then None else SplitAtBar(FromBytes(b.value))
  }

  // Split at the first '|'.
  function SplitAtBar(s: string): Option<Cursor> {
    if s == "" then None
    else if s[0] == '|' then Some(Cursor("", s[1..]))
    else
      var rest := SplitAtBar(s[1..]);
      if rest.None? then None else Some(Cursor([s[0]] + rest.value.pk, rest.value.rk))
  }

  lemma {:induction false} SplitAtBarFirst(pk: string, rk: string)
    requires '|' !in pk
    ensures SplitAtBar(pk + "|" + rk) == Some(Cursor(pk, rk))
  {
    if pk == "" {
      assert pk + "|" + rk == "|" + rk;
    } else {
      assert (pk + "|" + rk)[1..] == pk[1..] + "|" + rk;
      SplitAtBarFirst(pk[1..], rk);
      assert pk == [pk[0]] + pk[1..];
    }
  }

  lemma {:induction false} SplitAtBarHasNoBar(s: string)
    ensures SplitAtBar(s).Some? ==> '|' !in SplitAtBar(s).value.pk
  {
    if s != "" {
      SplitAtBarHasNoBar(s[1..]);
    }
  }

  // A token gives its position back exactly when the primary key holds no '|', whatever the range key.
  lemma CursorRoundTrip(pk: ByteString, rk: ByteString)
    ensures DecodeCursor(EncodeCursor(pk, rk)) == Some(Cursor(pk, rk)) <==> '|' !in pk
    ensures EncodeCursor(pk, rk) != ""
  {
    var plain := pk + "|" + rk;
    var b := ToBytes(plain);
    EncodeUsesAlphabet(b);
    WithoutNewlinesKeeps(Encode(b));
    DecodeUndoesEncode(b);
    assert FromBytes(b) == plain;
    SplitAtBarHasNoBar(plain);
    if '|' !in pk {
      SplitAtBarFirst(pk, rk);
    }
  }

  // Key values accepted in a URL never hold a '|', and are byte strings.
  lemma KeyValuesRoundTrip(pk: string, rk: string)
    requires KeyValueOk(pk) && (rk == "" || KeyValueOk(rk))
    ensures IsBytes(pk) && IsBytes(rk)
    ensures DecodeCursor(EncodeCursor(pk, rk)) == Some(Cursor(pk, rk)) && EncodeCursor(pk, rk) != ""
  {
    assert forall i | 0 < i < |pk| :: KeyValueChar(pk[i]);
    assert forall i | 0 < i < |rk| :: KeyValueChar(rk[i]);
    CursorRoundTrip(pk, rk);
  }
}
