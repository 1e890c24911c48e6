/** Base64 text (section 4 of RFC 4648), as WireGuard keys are written in. */
module Base64 {
  import opened Common
  import opened Validation

  type Byte = x: int | 0 <= x < 256

  function Symbol(n: nat): char
    requires n < 64
  {
    if n < 26 then 'A' + n as char
    else if n < 52 then 'a' + (n - 26) as char
    else if n < 62 then '0' + (n - 52) as char
    else if n == 62 then '+'
    else '/'
  }

  /** The text of some bytes, four symbols to three of them. */
  function Text(bytes: seq<Byte>): string {
    if |bytes| == 0 then ""
    else if |bytes| == 1 then [Symbol(bytes[0] / 4), Symbol(bytes[0] % 4 * 16), '=', '=']
    else if |bytes| == 2 then
      [Symbol(bytes[0] / 4), Symbol(bytes[0] % 4 * 16 + bytes[1] / 16), Symbol(bytes[1] % 16 * 4), '=']
    else
      [Symbol(bytes[0] / 4), Symbol(bytes[0] % 4 * 16 + bytes[1] / 16), Symbol(bytes[1] % 16 * 4 + bytes[2] / 64),
       Symbol(bytes[2] % 64)] + Text(bytes[3..])
  }

  lemma SymbolValue(n: nat)
    requires n < 64
    ensures Base64Value(Symbol(n)) == Some(n)
  {
  }

  lemma ValueSymbol(c: char)
    requires Base64Value(c).Some?
    ensures Base64Value(c).value < 64 && Symbol(Base64Value(c).value) == c
  {
  }

  /** One pad at the end, symbols before it, and no bits that stand for nothing. */
  predicate PaddedOnce(text: string) {
    && |text| % 4 == 0 && |text| > 0 && text[|text| - 1] == '='
    && (forall i :: 0 <= i < |text| - 1 ==> Base64Value(text[i]).Some?)
    && Base64Value(text[|text| - 2]).value % 4 == 0
  }

  lemma {:induction false} Decodes(text: string) returns (bytes: seq<Byte>)
    requires PaddedOnce(text)
    ensures |bytes| == |text| / 4 * 3 - 1 && Text(bytes) == text
  {
    hide Symbol, Base64Value;
    ValueSymbol(text[0]);
    ValueSymbol(text[1]);
    ValueSymbol(text[2]);
    var v0, v1, v2 := Base64Value(text[0]).value, Base64Value(text[1]).value, Base64Value(text[2]).value;
    var b0: Byte, b1: Byte := v0 * 4 + v1 / 16, v1 % 16 * 16 + v2 / 4;
    if |text| == 4 {
      bytes := [b0, b1];
      assert text == [text[0], text[1], text[2], text[3]];
    } else {
      ValueSymbol(text[3]);
      var v3 := Base64Value(text[3]).value;
      var b2: Byte := v2 % 4 * 64 + v3;
      var rest := Decodes(text[4..]);
      bytes := [b0, b1, b2] + rest;
      assert bytes[3..] == rest;
      assert text == [text[0], text[1], text[2], text[3]] + text[4..];
    }
  }

  lemma {:induction false} Encodes(bytes: seq<Byte>)
    requires |bytes| % 3 == 2
    ensures |Text(bytes)| == (|bytes| + 1) / 3 * 4 && PaddedOnce(Text(bytes))
  {
    hide Symbol, Base64Value;
    var text := Text(bytes);
    SymbolValue(bytes[0] / 4);
    SymbolValue(bytes[0] % 4 * 16 + bytes[1] / 16);
    if |bytes| == 2 {
      SymbolValue(bytes[1] % 16 * 4);
    } else {
      SymbolValue(bytes[1] % 16 * 4 + bytes[2] / 64);
      SymbolValue(bytes[2] % 64);
      Encodes(bytes[3..]);
      var rest := Text(bytes[3..]);
      assert forall i :: 4 <= i < |text| ==> text[i] == rest[i - 4];
    }
  }

  /** A key is accepted exactly if it is the text of 32 bytes. */
  lemma KeyMeaning(text: string)
    ensures PrivateKey(text) <==> exists bytes: seq<Byte> :: |bytes| == 32 && Text(bytes) == text
  {
    hide Base64Value, Text;
    if PrivateKey(text) {
      assert PaddedOnce(text);
      var bytes := Decodes(text);
    }
    if bytes: seq<Byte> :| |bytes| == 32 && Text(bytes) == text {
      Encodes(bytes);
    }
  }
}
