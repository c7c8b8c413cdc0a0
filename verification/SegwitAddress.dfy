/**
 Native SegWit addresses: text to locking script.
 (internal/rpc/bech32.go, decodeBech32 and BuildSegwitScript)
 */
module SegwitAddress {
  import opened Bytes
  import opened Text
  import opened Wrappers
  import Checksum
  import ConvertBits

  const CHARSET := "qpzry9x8gf2tvdw0s3jn54khce6mua7l"

  datatype Error = MixedCase | Separator | Character | BadChecksum | Empty | Version | Padding | ProgramLength

  datatype Decoded = Decoded(hrp: string, data: Bytes)

  // ----- Text -----

  /** The symbol of a character, or -1. */
  function Symbol(c: char): (r: int)
    ensures -1 <= r < 32
    ensures r >= 0 ==> CHARSET[r] == c
  {
    IndexFrom(CHARSET, c, 0)
  }

  function Symbols(s: string): Option<Bytes> {
    if s == "" then Some([])
    else if Symbol(s[0]) < 0 then None
    else
      match Symbols(s[1..])
      case None => None
      case Some(rest) => Some([Symbol(s[0]) as byte] + rest)
  }

  function TextBytes(s: string): (b: Bytes)
    ensures |b| == |s|
  {
    seq(|s|, i requires 0 <= i < |s| => (s[i] as int % 256) as byte)
  }

  // ----- Decoding -----

  function Decode(addr: string): Result<Decoded, Error> {
    var lower := Lower(addr);
    var pos := LastIndex(lower, '1');
    if lower != addr && Upper(addr) != addr then Err(MixedCase)
    else if pos < 1 || pos + 7 > |lower| then Err(Separator)
    else DecodeParts(lower[..pos], lower[pos + 1..])
  }

  /** The part after the separator, checked and stripped of its six checksum symbols. */
  function DecodeParts(hrp: string, text: string): Result<Decoded, Error>
    requires |text| >= 6
  {
    SymbolsLength(text);
    match Symbols(text)
    case None => Err(Character)
    case Some(symbols) =>
      if !Checksum.Valid(Checksum.Bech32, TextBytes(hrp), symbols) then Err(BadChecksum)
      else Ok(Decoded(hrp, symbols[..|symbols| - 6]))
  }

  method DecodeSymbols(text: string) returns (decoded: Option<Bytes>)
    ensures decoded == Symbols(text)
  {
    var data: Bytes := [];
    assert text[0..] == text;
    for i := 0 to |text|
      invariant Symbols(text).Some? <==> Symbols(text[i..]).Some?
      invariant Symbols(text).Some? ==> Symbols(text).value == data + Symbols(text[i..]).value
    {
      assert text[i..][1..] == text[i + 1..];
      var d := Symbol(text[i]);
      if d < 0 {
        return None;
      }
      data := data + [d as byte];
    }
    assert data + [] == data;
    return Some(data);
  }

  lemma {:induction false} SymbolsLength(s: string)
    ensures Symbols(s).Some? ==> |Symbols(s).value| == |s| && Checksum.Small(Symbols(s).value)
  {
    if s != "" {
      SymbolsLength(s[1..]);
    }
  }

  method DecodeBech32(addr: string) returns (r: Result<Decoded, Error>)
    ensures r == Decode(addr)
  {
    var lower := Lower(addr);
    if lower != addr && Upper(addr) != addr {
      return Err(MixedCase);
    }
    var pos := LastIndex(lower, '1');
    if pos < 1 || pos + 7 > |lower| {
      return Err(Separator);
    }
    r := CheckParts(lower[..pos], lower[pos + 1..]);
  }

  method CheckParts(hrp: string, text: string) returns (r: Result<Decoded, Error>)
    requires |text| >= 6
    ensures r == DecodeParts(hrp, text)
  {
    SymbolsLength(text);
    var decoded := DecodeSymbols(text);
    if decoded.None? {
      return Err(Character);
    }
    var ok := Checksum.Bech32VerifyChecksum(TextBytes(hrp), decoded.value);
    if !ok {
      return Err(BadChecksum);
    }
    return Ok(Decoded(hrp, decoded.value[..|decoded.value| - 6]));
  }

  /** OP_0, or OP_1 to OP_16. */
  function Opcode(version: byte): byte
    requires version <= 16
  {
    if version == 0 then 0 else 0x50 + version
  }

  function Script(addr: string): Result<Bytes, Error> {
    match Decode(addr)
    case Err(e) => Err(e)
    case Ok(d) =>
      if d.data == [] then Err(Empty)
      else if d.data[0] > 16 then Err(Version)
      else
        match ConvertBits.Convert(d.data[1..], 5, 8, false)
        case None => Err(Padding)
        case Some(program) =>
          if |program| != 20 && |program| != 32 then Err(ProgramLength)
          else Ok([Opcode(d.data[0]), |program| as byte] + program)
  }

  method BuildSegwitScript(addr: string) returns (r: Result<Bytes, Error>)
    ensures r == Script(addr)
  {
    var decoded := DecodeBech32(addr);
    if decoded.Err? {
      return Err(decoded.error);
    }
    var data := decoded.value.data;
    if |data| == 0 {
      return Err(Empty);
    }
    if data[0] > 16 {
      return Err(Version);
    }
    var program := ConvertBits.Bech32ConvertBits(data[1..], 5, 8, false);
    if program.None? {
      return Err(Padding);
    }
    if |program.value| != 20 && |program.value| != 32 {
      return Err(ProgramLength);
    }
    r := Ok([Opcode(data[0]), |program.value| as byte] + program.value);
  }

  // ----- An address is determined by what it decodes to -----

  lemma {:induction false} SymbolsDetermineText(s: string, t: string)
    requires Symbols(s).Some? && Symbols(s) == Symbols(t)
    ensures s == t
  {
    SymbolsLength(s);
    SymbolsLength(t);
    if s != "" {
      assert Symbols(s).value[1..] == Symbols(s[1..]).value;
      assert Symbols(t).value[1..] == Symbols(t[1..]).value;
      SymbolsDetermineText(s[1..], t[1..]);
      assert CHARSET[Symbols(s).value[0] as nat] == s[0] && CHARSET[Symbols(t).value[0] as nat] == t[0];
      assert s == [s[0]] + s[1..] && t == [t[0]] + t[1..];
    }
  }

  /** What a successful decoding says about the text. */
  lemma DecodedText(addr: string) returns (symbols: Bytes)
    requires Decode(addr).Ok?
    ensures var d := Decode(addr).value;
      && |symbols| == |d.data| + 6 && symbols[..|d.data|] == d.data && Checksum.Small(symbols)
      && Checksum.Valid(Checksum.Bech32, TextBytes(d.hrp), symbols)
      && |d.hrp| + 1 <= |addr| && Lower(addr) == d.hrp + "1" + Lower(addr)[|d.hrp| + 1..]
      && Symbols(Lower(addr)[|d.hrp| + 1..]) == Some(symbols)
  {
    var lower := Lower(addr);
    var pos := LastIndex(lower, '1');
    symbols := Symbols(lower[pos + 1..]).value;
    SymbolsLength(lower[pos + 1..]);
    SplitAround(lower, pos);
  }

  lemma SplitAround(s: string, pos: nat)
    requires pos < |s| && s[pos] == '1'
    ensures s == s[..pos] + "1" + s[pos + 1..]
  {
    assert s == s[..pos] + [s[pos]] + s[pos + 1..];
  }

  /** Two addresses with the same prefix and the same data differ at most in case. */
  lemma DecodingIsInjective(a: string, b: string)
    requires Decode(a).Ok? && Decode(a) == Decode(b)
    ensures Lower(a) == Lower(b)
  {
    var d := Decode(a).value;
    var x := DecodedText(a);
    var y := DecodedText(b);
    Checksum.ChecksumIsDetermined(Checksum.Bech32, TextBytes(d.hrp), x, y);
    SymbolsDetermineText(Lower(a)[|d.hrp| + 1..], Lower(b)[|d.hrp| + 1..]);
  }

  lemma OpcodeIsInjective(v: byte, w: byte)
    requires v <= 16 && w <= 16 && Opcode(v) == Opcode(w)
    ensures v == w
  {
  }

  lemma ScriptParts(addr: string)
    requires Script(addr).Ok?
    ensures var script, x := Script(addr).value, Decode(addr).value.data;
      && x != [] && x[0] <= 16 && ConvertBits.Convert(x[1..], 5, 8, false).Some?
      && script[0] == Opcode(x[0]) && script[2..] == ConvertBits.Convert(x[1..], 5, 8, false).value
  {
  }

  lemma ScriptDeterminesData(x: Bytes, y: Bytes)
    requires x != [] && y != [] && x[0] == y[0]
    requires ConvertBits.Convert(x[1..], 5, 8, false).Some?
    requires ConvertBits.Convert(x[1..], 5, 8, false) == ConvertBits.Convert(y[1..], 5, 8, false)
    ensures x == y
  {
    ConvertBits.AcceptedComesBack(x[1..], 5, 8);
    ConvertBits.AcceptedComesBack(y[1..], 5, 8);
    assert x == [x[0]] + x[1..] && y == [y[0]] + y[1..];
  }

  /** On one network, a locking script belongs to at most one address, up to case. */
  lemma ScriptDeterminesAddress(a: string, b: string)
    requires Script(a).Ok? && Script(a) == Script(b)
    requires Decode(a).value.hrp == Decode(b).value.hrp
    ensures Lower(a) == Lower(b)
  {
    var x, y := Decode(a).value.data, Decode(b).value.data;
    ScriptParts(a);
    ScriptParts(b);
    OpcodeIsInjective(x[0], y[0]);
    ScriptDeterminesData(x, y);
    DecodingIsInjective(a, b);
  }
}
