/**
 The encoder that BIP 173 addresses come from, which the source does not have: everything it makes is decoded, and
 every witness program of the two accepted lengths gets its script.  (internal/rpc/bech32.go)
 */
module SegwitEncode {
  import opened Bytes
  import opened SegwitAddress
  import opened Sequences
  import opened Text
  import opened Wrappers
  import Checksum
  import ChecksumCreate
  import ConvertBits

  function Letters(d: Bytes): (s: string)
    requires Checksum.Small(d)
    ensures |s| == |d| && forall i :: 0 <= i < |d| ==> s[i] == CHARSET[d[i]]
  {
    seq(|d|, i requires 0 <= i < |d| => CHARSET[d[i]])
  }

  lemma CharsetIsDistinct(i: nat, j: nat)
    requires i < j < 32
    ensures CHARSET[i] != CHARSET[j]
  {
  }

  lemma CharsetIsLower(i: nat)
    requires i < 32
    ensures CHARSET[i] != '1' && LowerChar(CHARSET[i]) == CHARSET[i]
  {
  }

  lemma SymbolOfLetter(v: nat)
    requires v < 32
    ensures Symbol(CHARSET[v]) == v
  {
    var r := Symbol(CHARSET[v]);
    if 0 <= r < v {
      CharsetIsDistinct(r, v);
    }
  }

  lemma {:induction false} LettersDecode(d: Bytes)
    requires Checksum.Small(d)
    ensures Symbols(Letters(d)) == Some(d)
  {
    if d != [] {
      assert Letters(d)[1..] == Letters(d[1..]);
      LettersDecode(d[1..]);
      SymbolOfLetter(d[0] as nat);
      assert [d[0]] + d[1..] == d;
    }
  }

  /** The address of a prefix and payload. */
  function Encode(hrp: string, data: Bytes): string
    requires Checksum.Small(data)
  {
    var completed := data + ChecksumCreate.Completion(Checksum.Bech32, TextBytes(hrp), data);
    hrp + "1" + Letters(completed)
  }

  lemma LettersAreLower(d: Bytes)
    requires Checksum.Small(d)
    ensures forall i :: 0 <= i < |d| ==> Letters(d)[i] != '1' && LowerChar(Letters(d)[i]) == Letters(d)[i]
  {
    forall i | 0 <= i < |d| ensures Letters(d)[i] != '1' && LowerChar(Letters(d)[i]) == Letters(d)[i] {
      CharsetIsLower(d[i] as nat);
    }
  }

  lemma LowerStays(hrp: string, text: string)
    requires Lower(hrp) == hrp && forall i :: 0 <= i < |text| ==> LowerChar(text[i]) == text[i]
    ensures Lower(hrp + "1" + text) == hrp + "1" + text
  {
    var s := hrp + "1" + text;
    forall i | 0 <= i < |s| ensures LowerChar(s[i]) == s[i] {
      if i < |hrp| {
        assert s[i] == hrp[i] == Lower(hrp)[i];
      } else if i > |hrp| {
        assert s[i] == text[i - |hrp| - 1];
      }
    }
  }

  lemma LastIndexIs(s: string, c: char, k: nat)
    requires k < |s| && s[k] == c && forall i :: k < i < |s| ==> s[i] != c
    ensures LastIndex(s, c) == k
  {
  }

  lemma LastOfFront(front: string, text: string, c: char)
    requires front != "" && front[|front| - 1] == c
    requires forall i :: 0 <= i < |text| ==> text[i] != c
    ensures LastIndex(front + text, c) == |front| - 1
  {
    var s := front + text;
    assert forall i :: |front| <= i < |s| ==> s[i] == text[i - |front|];
    LastIndexIs(s, c, |front| - 1);
  }

  lemma SeparatorIsLast(hrp: string, text: string)
    requires forall i :: 0 <= i < |text| ==> text[i] != '1'
    ensures LastIndex(hrp + "1" + text, '1') == |hrp|
  {
    LastOfFront(hrp + "1", text, '1');
  }

  lemma SplitsThere(addr: string, hrp: string, text: string)
    requires addr == hrp + "1" + text && hrp != "" && |text| >= 6
    requires Lower(addr) == addr && LastIndex(addr, '1') == |hrp|
    ensures Decode(addr) == DecodeParts(hrp, text)
  {
    assert addr[..|hrp|] == hrp && addr[|hrp| + 1..] == text;
  }

  lemma PartsDecode(hrp: string, data: Bytes, check: Bytes)
    requires Checksum.Small(data) && Checksum.Small(check) && |check| == 6
    requires Checksum.Valid(Checksum.Bech32, TextBytes(hrp), data + check)
    ensures DecodeParts(hrp, Letters(data + check)) == Ok(Decoded(hrp, data))
  {
    LettersDecode(data + check);
    assert (data + check)[..|data|] == data;
  }

  /** Every prefix without capitals and every payload has an address, and it decodes to them. */
  lemma EncodedDecodes(hrp: string, data: Bytes)
    requires hrp != "" && Lower(hrp) == hrp && Checksum.Small(data)
    ensures Decode(Encode(hrp, data)) == Ok(Decoded(hrp, data))
  {
    var check := ChecksumCreate.Completion(Checksum.Bech32, TextBytes(hrp), data);
    var text := Letters(data + check);
    LettersAreLower(data + check);
    LowerStays(hrp, text);
    SeparatorIsLast(hrp, text);
    SplitsThere(hrp + "1" + text, hrp, text);
    ChecksumCreate.CompletionIsValid(Checksum.Bech32, TextBytes(hrp), data);
    PartsDecode(hrp, data, check);
  }

  /** Capitals and small letters may not be mixed. */
  lemma DecodedIsOneCase(addr: string)
    requires Decode(addr).Ok?
    ensures Lower(addr) == addr || Upper(addr) == addr
  {
  }

  function ProgramData(version: byte, program: Bytes): (d: Bytes)
    requires version <= 16
    ensures d != [] && d[0] == version && Checksum.Small(d)
  {
    ProgramFits(program);
    ConvertBits.NarrowThenWiden(program, 8, 5);
    [version] + ConvertBits.Convert(program, 8, 5, true).value
  }

  lemma ProgramFits(program: Bytes)
    ensures ConvertBits.InRange(program, 8)
    ensures ConvertBits.Convert(program, 8, 5, true).Some?
    ensures Checksum.Small(ConvertBits.Convert(program, 8, 5, true).value)
  {
    ConvertBits.Pow2Of8();
    ConvertBits.NarrowThenWiden(program, 8, 5);
    Checksum.Pow2Values();
    assert ConvertBits.InRange(ConvertBits.Convert(program, 8, 5, true).value, 5);
  }

  /**
   Every witness program of 20 or 32 bytes and version up to 16 has an address, whose script is the version's opcode,
   the push of so many bytes, and the program.
   */
  lemma EveryProgramHasAnAddress(hrp: string, version: byte, program: Bytes)
    requires hrp != "" && Lower(hrp) == hrp && version <= 16 && (|program| == 20 || |program| == 32)
    ensures Script(Encode(hrp, ProgramData(version, program)))
         == Ok([if version == 0 then 0 else 0x50 + version, |program| as byte] + program)
  {
    var data := ProgramData(version, program);
    EncodedDecodes(hrp, data);
    ProgramFits(program);
    ConvertBits.NarrowThenWiden(program, 8, 5);
    assert data[1..] == ConvertBits.Convert(program, 8, 5, true).value;
  }

  /** And every accepted address has such a script. */
  lemma ScriptLayout(addr: string)
    requires Script(addr).Ok?
    ensures var script, version := Script(addr).value, Decode(addr).value.data[0];
      && (|script| == 22 || |script| == 34) && version <= 16
      && script[0] == (if version == 0 then 0 else 0x50 + version) && script[1] as nat == |script| - 2
  {
  }
}
