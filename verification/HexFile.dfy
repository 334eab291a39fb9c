/**
  hex2bin.c and bin2hex: a ROM image written as Intel HEX records and read back.
 */
module HexFile {
  import opened Lists
  import opened Layout

  const SEG_MASK: nat := 0xFFFF
  const MAX_MASK: nat := 0xFF_FFFF
  const ONE_MEG: nat := 0x10_0000
  const NREC: nat := 16

  // ---------------------------------------------------------------- hex digits

  function Digit(v: nat): char
    requires v < 16
  {
    "0123456789ABCDEF"[v]
  }

  /** getnibble: the value of a digit, -1 for any other character and past the end. */
  function Nibble(line: string, pos: nat): int {
    if pos >= |line| then -1
    else if '0' <= line[pos] <= '9' then line[pos] as int - 48
    else if 'A' <= line[pos] <= 'F' then line[pos] as int - 55
    else if 'a' <= line[pos] <= 'f' then line[pos] as int - 87
    else -1
  }

  lemma DigitNibble(v: nat, line: string, pos: nat)
    requires v < 16 && pos < |line| && line[pos] == Digit(v)
    ensures Nibble(line, pos) == v
  {}

  /** Capital and small digits count alike, and nothing else is a digit. */
  lemma {:induction false} NibbleExactly(line: string, pos: nat, v: nat)
    requires pos < |line| && v < 16
    ensures Nibble(line, pos) == v <==> line[pos] == "0123456789ABCDEF"[v] || line[pos] == "0123456789abcdef"[v]
    ensures Nibble(line, pos) == -1 <==> line[pos] !in "0123456789ABCDEFabcdef"
  {
    assert "0123456789ABCDEFabcdef" == "0123456789" + "ABCDEF" + "abcdef";
    DigitsAre(line[pos]);
  }

  lemma DigitsAre(c: char)
    ensures c in "0123456789" <==> '0' <= c <= '9'
    ensures c in "ABCDEF" <==> 'A' <= c <= 'F'
    ensures c in "abcdef" <==> 'a' <= c <= 'f'
  {
    assert forall i :: 0 <= i < 10 ==> "0123456789"[i] == '0' + i as char;
    assert forall i :: 0 <= i < 6 ==> "ABCDEF"[i] == 'A' + i as char && "abcdef"[i] == 'a' + i as char;
  }

  function Illegal(line: string, pos: nat): nat {
    if Nibble(line, pos) < 0 then 1 else 0
  }

  /** getbyte number k of a record, and the low eight bits of it. */
  function RawByte(line: string, k: nat): int {
    16 * Nibble(line, 1 + 2 * k) + Nibble(line, 2 + 2 * k)
  }

  function ByteOf(line: string, k: nat): byte {
    (RawByte(line, k) % 256) as byte
  }

  /** Sum of the first n bytes modulo 256, and the illegal digits among them. */
  function SumOf(line: string, n: nat): (s: nat)
    ensures s < 256
  {
    if n == 0 then 0 else (SumOf(line, n - 1) + ByteOf(line, n - 1) as nat) % 256
  }

  function BadOf(line: string, n: nat): nat {
    if n == 0 then 0 else BadOf(line, n - 1) + Illegal(line, 2 * n - 1) + Illegal(line, 2 * n)
  }

  /** The bytes of a record as text. */
  function Hex(b: seq<byte>): (s: string)
    ensures |s| == 2 * |b|
  {
    if b == [] then "" else
      Hex(b[..|b| - 1]) + [Digit(b[|b| - 1] as nat / 16), Digit(b[|b| - 1] as nat % 16)]
  }

  function Text(rec: seq<byte>): (s: string)
    ensures |s| == 1 + 2 * |rec|
  {
    ":" + Hex(rec)
  }

  lemma {:induction false} HexAt(b: seq<byte>, k: nat)
    requires k < |b|
    ensures Hex(b)[2 * k] == Digit(b[k] as nat / 16) && Hex(b)[2 * k + 1] == Digit(b[k] as nat % 16)
  {
    if k < |b| - 1 {
      HexAt(b[..|b| - 1], k);
    }
  }

  lemma {:induction false} TextByte(rec: seq<byte>, k: nat)
    requires k < |rec|
    ensures ByteOf(Text(rec), k) == rec[k] && RawByte(Text(rec), k) == rec[k] as int
    ensures Illegal(Text(rec), 2 * k + 1) == Illegal(Text(rec), 2 * k + 2) == 0
  {
    HexAt(rec, k);
    var v := rec[k] as nat;
    assert Text(rec)[1 + 2 * k] == Hex(rec)[2 * k] && Text(rec)[2 + 2 * k] == Hex(rec)[2 * k + 1];
    DigitNibble(v / 16, Text(rec), 1 + 2 * k);
    DigitNibble(v % 16, Text(rec), 2 + 2 * k);
  }

  function Sum(b: seq<byte>): (s: nat)
    ensures s < 256
  {
    if b == [] then 0 else (Sum(b[..|b| - 1]) + b[|b| - 1] as nat) % 256
  }

  lemma {:induction false} TextSum(rec: seq<byte>, n: nat)
    requires n <= |rec|
    ensures SumOf(Text(rec), n) == Sum(rec[..n]) && BadOf(Text(rec), n) == 0
  {
    hide ByteOf, Text, Illegal;
    if n > 0 {
      TextSum(rec, n - 1);
      TextByte(rec, n - 1);
      assert rec[..n][..n - 1] == rec[..n - 1];
    }
  }

  // ------------------------------------------------------------------- the reader

  /** The reader's globals: error messages printed, warnings about overwriting, and whether
      it stopped at an end-of-file record or at data beyond the ROM. */
  datatype State = State(lba: nat, mask: nat, buf: seq<byte>, errors: nat, overwrites: nat, eof: bool, fatal: bool)

  function Start(pad: byte, size: nat): State {
    State(0, SEG_MASK, Padding(pad, size), 0, 0, false, false)
  }

  function Padding(pad: byte, n: nat): (s: seq<byte>)
    ensures |s| == n && forall i :: 0 <= i < n ==> s[i] == pad
  {
    if n == 0 then [] else Padding(pad, n - 1) + [pad]
  }

  /** a & mask, for the two masks there are. */
  function Masked(a: nat, mask: nat): nat {
    if mask == SEG_MASK then a % 0x1_0000 else a % 0x100_0000
  }

  /** putbyte, with the relocation options at their defaults. */
  function PutByte(s: State, pad: byte, address: nat, data: byte): State {
    if s.fatal || address > MAX_MASK then s
    else if address >= |s.buf| then s.(fatal := true)
    else s.(buf := s.buf[address := data], overwrites := s.overwrites + if s.buf[address] != pad then 1 else 0)
  }

  /** Data for addresses from 16 megabytes on is dropped; below that it must fit the ROM. */
  lemma PutLimits(s: State, pad: byte, address: nat, data: byte)
    requires !s.fatal
    ensures address >= 0x100_0000 ==> PutByte(s, pad, address, data) == s
    ensures |s.buf| <= address < 0x100_0000 ==> PutByte(s, pad, address, data) == s.(fatal := true)
  {}

  /** The data bytes of a record, the first n of them. */
  function PutData(s: State, pad: byte, line: string, offset: nat, n: nat): State {
    if n == 0 then s else
      PutByte(PutData(s, pad, line, offset, n - 1), pad,
              (s.lba + Masked(offset + n - 1, s.mask)) % 0x1_0000_0000, ByteOf(line, 4 + n - 1))
  }

  /** Two bytes, as getword puts them together, in 32 bits. */
  function WordOf(line: string, k: nat): nat {
    (256 * RawByte(line, k) + RawByte(line, k + 1)) % 0x1_0000_0000
  }

  /** How many bytes a record has before its checksum, by its type. */
  function Extent(kind: byte, length: byte): nat {
    if kind == 0 then 4 + length as nat
    else if kind == 2 || kind == 4 then 6
    else if kind == 3 || kind == 5 then 8
    else 4
  }

  function Effect(s: State, pad: byte, line: string): State {
    var length, kind := ByteOf(line, 0), ByteOf(line, 3);
    if kind == 0 then PutData(s, pad, line, WordOf(line, 1), length as nat)
    else if kind == 1 then s.(eof := true)
    else if kind == 2 then s.(mask := SEG_MASK, lba := WordOf(line, 4) * 16 % 0x1_0000_0000)
    else if kind == 4 then s.(mask := MAX_MASK, lba := WordOf(line, 4) * 0x1_0000 % 0x1_0000_0000)
    else if kind == 3 || kind == 5 then s
    else s.(errors := s.errors + 1)
  }

  /** What scan_Intel_file does with one line. */
  function ReadLine(s: State, pad: byte, line: string): State {
    if s.eof || s.fatal || line == "" || line[0] != ':' then s else
      var n := Extent(ByteOf(line, 3), ByteOf(line, 0)) + 1;
      var t := Effect(s, pad, line);
      if t.fatal then t else
        t.(errors := t.errors + BadOf(line, n) + if SumOf(line, n) != 0 then 1 else 0)
  }

  function ReadAll(s: State, pad: byte, lines: seq<string>): State {
    if lines == [] then s else ReadLine(ReadAll(s, pad, lines[..|lines| - 1]), pad, lines[|lines| - 1])
  }

  class Reader {
    const pad: byte
    const buffer: array<byte>
    var upperLba: nat
    var addressMask: nat
    var checksum: nat
    var line: string
    var lp: nat
    var errors: nat
    var overwrite: nat
    var fatal: bool

    function S(eof: bool): State
      reads this, buffer
    {
      State(upperLba, addressMask, buffer[..], errors, overwrite, eof, fatal)
    }

    constructor (p: byte, romSize: nat)
      ensures pad == p && S(false) == Start(p, romSize) && fresh(buffer)
    {
      hide Padding;
      pad, upperLba, addressMask, checksum, line, lp, errors, overwrite, fatal := p, 0, SEG_MASK, 0, "", 0, 0, 0, false;
      buffer := new byte[romSize](i => p);
      new;
      assert buffer[..] == Padding(p, romSize);
    }

    /** The first k bytes of the line have been read. */
    ghost predicate ReadBytes(k: nat, errors0: nat)
      reads this
    {
      lp == 1 + 2 * k && checksum == SumOf(line, k) && errors == errors0 + BadOf(line, k)
    }

    method GetNibble() returns (n: int)
      modifies this`lp, this`errors
      ensures n == Nibble(line, old(lp)) && lp == old(lp) + 1 && errors == old(errors) + Illegal(line, old(lp))
    {
      n := Nibble(line, lp);
      if n < 0 {
        errors := errors + 1;
      }
      lp := lp + 1;
    }

    method GetByte(ghost k: nat, ghost errors0: nat) returns (b: int)
      requires ReadBytes(k, errors0)
      modifies this`lp, this`errors, this`checksum
      ensures ReadBytes(k + 1, errors0) && b == RawByte(line, k)
    {
      hide Nibble;
      var high := GetNibble();
      var low := GetNibble();
      b := 16 * high + low;
      checksum := (checksum + b) % 256;
    }

    method GetWord(ghost k: nat, ghost errors0: nat) returns (w: nat)
      requires ReadBytes(k, errors0)
      modifies this`lp, this`errors, this`checksum
      ensures ReadBytes(k + 2, errors0) && w == WordOf(line, k)
    {
      hide RawByte, SumOf, BadOf;
      var high := GetByte(k, errors0);
      var low := GetByte(k + 1, errors0);
      w := (256 * high + low) % 0x1_0000_0000;
    }

    /** putbyte. */
    method Put(address: nat, data: byte)
      modifies buffer, this`overwrite, this`fatal
      ensures S(false) == PutByte(old(S(false)), pad, address, data)
    {
      if fatal || address > MAX_MASK {
        return;
      }
      if address >= buffer.Length {
        fatal := true;
        return;
      }
      if buffer[address] != pad {
        overwrite := overwrite + 1;
      }
      buffer[address] := data;
    }

    /** The data loop of scan_Intel_file. */
    method DataRecord(laddr: nat, ldata: nat, ghost errors0: nat)
      requires ReadBytes(4, errors0) && laddr == WordOf(line, 1)
      modifies this`lp, this`errors, this`checksum, this`overwrite, this`fatal, buffer
      ensures ReadBytes(4 + ldata, errors0)
      ensures S(false).(errors := errors0) == PutData(old(S(false)).(errors := errors0), pad, line, laddr, ldata)
    {
      hide RawByte, SumOf, BadOf, WordOf, Masked, PutData, PutByte, ByteOf;
      var index: nat := 0;
      NoDataYet(old(S(false)).(errors := errors0), pad, line, laddr);
      while index < ldata
        invariant index <= ldata && ReadBytes(4 + index, errors0)
        invariant S(false).(errors := errors0) == PutData(old(S(false)).(errors := errors0), pad, line, laddr, index)
      {
        var raw := GetByte(4 + index, errors0);
        var data := (raw % 256) as byte;
        SameByte(line, 4 + index, raw);
        ghost var t := S(false);
        PutDataStep(old(S(false)).(errors := errors0), pad, line, laddr, index);
        Put((upperLba + Masked(laddr + index, addressMask)) % 0x1_0000_0000, data);
        PutIgnoresErrors(t, pad, (t.lba + Masked(laddr + index, t.mask)) % 0x1_0000_0000, data, errors0);
        index := index + 1;
      }
    }

    /** The switch of scan_Intel_file on the record type. */
    method RecordBody(kind: byte, ldata: byte, laddr: nat, ghost errors0: nat) returns (eof: bool, ghost e: nat)
      requires ReadBytes(4, errors0) && kind == ByteOf(line, 3) && ldata == ByteOf(line, 0) && laddr == WordOf(line, 1)
      modifies this`lp, this`errors, this`checksum, this`overwrite, this`fatal, this`upperLba, this`addressMask, buffer
      ensures ReadBytes(Extent(kind, ldata), e) && e == errors0 + (if kind > 5 then 1 else 0)
      ensures S(eof).(errors := e) == Effect(old(S(false)).(errors := errors0), pad, line)
    {
      hide RawByte, SumOf, BadOf, PutData, WordOf, ByteOf;
      eof, e := false, errors0;
      if kind == 0 {
        DataRecord(laddr, ldata as nat, errors0);
      } else if kind == 1 {
        eof := true;
      } else if kind == 2 {
        addressMask := SEG_MASK;
        var value := GetWord(4, errors0);
        upperLba := value * 16 % 0x1_0000_0000;
      } else if kind == 4 {
        addressMask := MAX_MASK;
        var value := GetWord(4, errors0);
        upperLba := value * 0x1_0000 % 0x1_0000_0000;
      } else if kind == 3 || kind == 5 {
        var high := GetWord(4, errors0);
        var low := GetWord(6, errors0);
      } else {
        errors, e := errors + 1, e + 1;
      }
    }

    /** The body of scan_Intel_file's loop. */
    method ScanLine(l: string) returns (eof: bool)
      requires !fatal
      modifies this, buffer
      ensures S(eof) == ReadLine(old(S(false)), pad, l) || (fatal && ReadLine(old(S(false)), pad, l).fatal)
    {
      hide RawByte, SumOf, BadOf, PutData, WordOf, ByteOf, Effect;
      eof := false;
      line, lp := l, 0;
      if l == "" || l[0] != ':' {
        return;
      }
      ghost var errors0 := errors;
      checksum, lp := 0, 1;
      NothingRead(l);
      var b0 := GetByte(0, errors0);
      var ldata := (b0 % 256) as byte;
      var laddr := GetWord(1, errors0);
      var b3 := GetByte(3, errors0);
      var kind := (b3 % 256) as byte;
      SameByte(l, 0, b0);
      SameByte(l, 3, b3);
      assert S(false).(errors := errors0) == old(S(false));
      ghost var e;
      eof, e := RecordBody(kind, ldata, laddr, errors0);
      ghost var n := Extent(kind, ldata);
      var b := GetByte(n, e);
      assert S(eof).(errors := e) == Effect(old(S(false)), pad, line);
      if checksum != 0 {
        errors := errors + 1;
      }
    }

    /** scan_Intel_file over the lines of a file. */
    method ScanFile(lines: seq<string>) returns (eof: bool)
      requires !fatal
      modifies this, buffer
      ensures S(eof) == ReadAll(old(S(false)), pad, lines) || (fatal && ReadAll(old(S(false)), pad, lines).fatal)
    {
      eof := false;
      var i: nat := 0;
      while i < |lines|
        invariant i <= |lines|
        invariant S(eof) == ReadAll(old(S(false)), pad, lines[..i]) || (fatal && ReadAll(old(S(false)), pad, lines[..i]).fatal)
      {
        assert lines[..i + 1][..i] == lines[..i];
        if !eof && !fatal {
          eof := ScanLine(lines[i]);
        }
        i := i + 1;
      }
      assert lines[..i] == lines;
    }
  }

  lemma {:induction false} NoDataYet(s: State, pad: byte, line: string, offset: nat)
    ensures PutData(s, pad, line, offset, 0) == s
  {}

  lemma {:induction false} PutDataStep(s: State, pad: byte, line: string, offset: nat, n: nat)
    ensures PutData(s, pad, line, offset, n + 1)
            == var t := PutData(s, pad, line, offset, n);
               PutByte(t, pad, (t.lba + Masked(offset + n, t.mask)) % 0x1_0000_0000, ByteOf(line, 4 + n))
  {
    PutKeepsLba(s, pad, line, offset, n);
  }

  lemma {:induction false} PutKeepsLba(s: State, pad: byte, line: string, offset: nat, n: nat)
    ensures PutData(s, pad, line, offset, n) == s.(buf := PutData(s, pad, line, offset, n).buf,
              overwrites := PutData(s, pad, line, offset, n).overwrites, fatal := PutData(s, pad, line, offset, n).fatal)
  {
    hide Masked;
    if n > 0 {
      PutKeepsLba(s, pad, line, offset, n - 1);
    }
  }

  lemma SameByte(line: string, k: nat, raw: int)
    requires raw == RawByte(line, k)
    ensures (raw % 256) as byte == ByteOf(line, k)
  {}

  lemma PutIgnoresErrors(s: State, pad: byte, address: nat, data: byte, e: nat)
    ensures PutByte(s, pad, address, data).(errors := e) == PutByte(s.(errors := e), pad, address, data)
  {}

  lemma NothingRead(line: string)
    ensures SumOf(line, 0) == 0 && BadOf(line, 0) == 0
  {}

  // -------------------------------------------------------------- what records do

  /** A record with its length, type and checksum in order; data stays within 64K. */
  predicate GoodRecord(rec: seq<byte>) {
    && |rec| >= 5 && |rec| == 5 + rec[0] as nat && Sum(rec) == 0
    && (rec[3] == 0 ==> Offset(rec) + rec[0] as nat <= 0x1_0000)
  }

  function Offset(rec: seq<byte>): nat
    requires |rec| >= 5
  {
    256 * rec[1] as nat + rec[2] as nat
  }

  /** A record in order has the effect of its type and draws no message. */
  lemma {:induction false} RecordRead(s: State, pad: byte, rec: seq<byte>)
    requires GoodRecord(rec) && !s.eof && !s.fatal && |rec| == Extent(rec[3], rec[0]) + 1
    ensures ReadLine(s, pad, Text(rec)) == Effect(s, pad, Text(rec))
    ensures WordOf(Text(rec), 1) == Offset(rec) && ByteOf(Text(rec), 0) == rec[0] && ByteOf(Text(rec), 3) == rec[3]
  {
    hide SumOf, BadOf, Effect, Nibble;
    TextByte(rec, 0);
    TextByte(rec, 1);
    TextByte(rec, 2);
    TextByte(rec, 3);
    TextSum(rec, |rec|);
    assert rec[..|rec|] == rec;
  }

  /** Nothing wrong with the first n bytes of a record means only digits. */
  lemma {:induction false} BadExactly(line: string, n: nat)
    ensures BadOf(line, n) > 0 <==> exists pos :: 1 <= pos <= 2 * n && Nibble(line, pos) < 0
  {
    hide Nibble;
    if n > 0 {
      BadExactly(line, n - 1);
      assert BadOf(line, n - 1) > 0 ==> exists pos :: 1 <= pos <= 2 * n && Nibble(line, pos) < 0;
      assert Illegal(line, 2 * n - 1) > 0 <==> Nibble(line, 2 * n - 1) < 0;
      assert Illegal(line, 2 * n) > 0 <==> Nibble(line, 2 * n) < 0;
    }
  }

  /** A record that does not run past the ROM draws a message exactly when its type is unknown, a
      digit in it is illegal or missing, or its bytes do not sum to zero. */
  lemma {:induction false} MessageExactly(s: State, pad: byte, line: string)
    requires !s.eof && !s.fatal && line != "" && line[0] == ':' && !ReadLine(s, pad, line).fatal
    ensures var n := Extent(ByteOf(line, 3), ByteOf(line, 0)) + 1;
            ReadLine(s, pad, line).errors > s.errors
            <==> ByteOf(line, 3) > 5 || SumOf(line, n) != 0 || exists pos :: 1 <= pos <= 2 * n && Nibble(line, pos) < 0
  {
    hide Nibble, ByteOf, SumOf, BadOf, WordOf, PutData;
    BadExactly(line, Extent(ByteOf(line, 3), ByteOf(line, 0)) + 1);
    PutKeepsLba(s, pad, line, WordOf(line, 1), ByteOf(line, 0) as nat);
  }

  lemma TextBegins(rec: seq<byte>)
    ensures Text(rec) != "" && Text(rec)[0] == ':'
  {}

  /** So a record spelled in digits with a sum other than zero is reported. */
  lemma {:induction false} WrongSumReported(s: State, pad: byte, rec: seq<byte>)
    requires !s.eof && !s.fatal && |rec| >= 5 && |rec| == Extent(rec[3], rec[0]) + 1 && Sum(rec) != 0
    requires !ReadLine(s, pad, Text(rec)).fatal
    ensures ReadLine(s, pad, Text(rec)).errors > s.errors
  {
    hide SumOf, Text, ReadLine, BadOf, Sum, Nibble;
    TextByte(rec, 0);
    TextByte(rec, 3);
    TextSum(rec, |rec|);
    assert rec[..|rec|] == rec;
    TextBegins(rec);
    MessageExactly(s, pad, Text(rec));
  }

  function Patched(buf: seq<byte>, at: nat, data: seq<byte>): (r: seq<byte>)
    requires at + |data| <= |buf|
    ensures |r| == |buf|
  {
    buf[..at] + data + buf[at + |data|..]
  }

  predicate AllPad(buf: seq<byte>, pad: byte, at: nat, n: nat)
    requires at + n <= |buf|
  {
    forall i :: at <= i < at + n ==> buf[i] == pad
  }

  /** A data record stores its bytes where the last address record and its offset say. */
  lemma {:induction false} DataRead(s: State, pad: byte, rec: seq<byte>, n: nat)
    requires GoodRecord(rec) && !s.fatal && rec[3] == 0 && n <= rec[0] as nat
    requires |s.buf| <= 0x100_0000 && s.lba + Offset(rec) + rec[0] as nat <= |s.buf|
    requires AllPad(s.buf, pad, s.lba + Offset(rec), rec[0] as nat)
    ensures PutData(s, pad, Text(rec), Offset(rec), n) == s.(buf := Patched(s.buf, s.lba + Offset(rec), rec[4..4 + n]))
  {
    hide Sum, ByteOf, Text, PutData, Masked, RawByte, Patched;
    var at := s.lba + Offset(rec);
    if n == 0 {
      NoDataYet(s, pad, Text(rec), Offset(rec));
      PatchNothing(s.buf, at);
      assert rec[4..4] == [];
    } else {
      DataRead(s, pad, rec, n - 1);
      TextByte(rec, 4 + n - 1);
      PutDataStep(s, pad, Text(rec), Offset(rec), n - 1);
      MaskedSmall(Offset(rec) + n - 1, s.mask);
      PatchMore(s.buf, at, rec[4..4 + n - 1], rec[4 + n - 1]);
      assert rec[4..4 + n - 1] + [rec[4 + n - 1]] == rec[4..4 + n];
      assert s.buf[at + n - 1] == pad;
    }
  }

  /** A segment record (type 2) of any segment: addresses count from 16 times its word. */
  lemma {:induction false} SegmentRead(s: State, pad: byte, rec: seq<byte>)
    requires GoodRecord(rec) && |rec| == 7 && rec[3] == 2 && !s.eof && !s.fatal
    ensures ReadLine(s, pad, Text(rec)) == s.(lba := 4096 * rec[4] as nat + 16 * rec[5] as nat, mask := SEG_MASK)
  {
    hide Sum, Text, PutData, RawByte, ByteOf, ReadLine;
    RecordRead(s, pad, rec);
    TextByte(rec, 0);
    TextByte(rec, 3);
    TextByte(rec, 4);
    TextByte(rec, 5);
  }

  /** Where byte k of a data record goes: after a segment record offsets wrap within the 64K from
      the segment's start, after a linear one they go on. */
  function PlaceOf(s: State, rec: seq<byte>, k: nat): nat
    requires |rec| >= 5
  {
    s.lba + (Offset(rec) + k) % (if s.mask == SEG_MASK then 0x1_0000 else 0x100_0000)
  }

  /** A data record inside the ROM, wherever the address record before it points: its bytes go to
      their places and everything else stays. */
  lemma {:induction false} DataPlaces(s: State, pad: byte, rec: seq<byte>, n: nat)
    requires |rec| >= 5 && |rec| == 5 + rec[0] as nat && !s.fatal && n <= rec[0] as nat
    requires |s.buf| <= 0x100_0000 && forall k: nat :: k < rec[0] as nat ==> PlaceOf(s, rec, k) < |s.buf|
    ensures var t := PutData(s, pad, Text(rec), Offset(rec), n);
            && !t.fatal && |t.buf| == |s.buf|
            && (forall k: nat :: k < n ==> t.buf[PlaceOf(s, rec, k)] == rec[4 + k])
            && forall x :: 0 <= x < |s.buf| && (forall k: nat :: k < n ==> x != PlaceOf(s, rec, k)) ==> t.buf[x] == s.buf[x]
  {
    hide ByteOf, Text, PutData, RawByte, Offset, PlaceOf, Masked;
    if n == 0 {
      NoDataYet(s, pad, Text(rec), Offset(rec));
    } else {
      DataPlaces(s, pad, rec, n - 1);
      TextByte(rec, 4 + n - 1);
      PutDataStep(s, pad, Text(rec), Offset(rec), n - 1);
      PutKeepsLba(s, pad, Text(rec), Offset(rec), n - 1);
      PlacesApart(s, rec, n - 1);
    }
  }

  lemma {:induction false} PlacesApart(s: State, rec: seq<byte>, n: nat)
    requires |rec| >= 5 && n < 256
    ensures PlaceOf(s, rec, n) == s.lba + Masked(Offset(rec) + n, s.mask)
    ensures forall k: nat :: k < n ==> PlaceOf(s, rec, k) != PlaceOf(s, rec, n)
  {}

  lemma PatchNothing(buf: seq<byte>, at: nat)
    requires at <= |buf|
    ensures Patched(buf, at, []) == buf
  {}

  lemma {:induction false} PatchMore(buf: seq<byte>, at: nat, data: seq<byte>, b: byte)
    requires at + |data| < |buf|
    ensures Patched(buf, at, data)[at + |data|] == buf[at + |data|]
    ensures Patched(buf, at, data)[at + |data| := b] == Patched(buf, at, data + [b])
  {}

  lemma MaskedSmall(a: nat, mask: nat)
    requires a < 0x1_0000
    ensures Masked(a, mask) == a
  {}

  lemma AddressWord(upper: nat)
    requires upper % 0x1_0000 == 0 && upper <= MAX_MASK
    ensures upper / 0x1_0000 % 0x1_0000_0000 * 0x1_0000 % 0x1_0000_0000 == upper
    ensures upper / 16 % 0x1_0000_0000 * 16 % 0x1_0000_0000 == upper
  {}

  /** A linear or segment address record for this upper address. */
  predicate IsAddress(rec: seq<byte>, upper: nat) {
    && GoodRecord(rec) && |rec| == 7
    && ((rec[3] == 4 && 256 * rec[4] as nat + rec[5] as nat == upper / 0x1_0000)
        || (rec[3] == 2 && 256 * rec[4] as nat + rec[5] as nat == upper / 16))
  }

  lemma {:induction false} AddressLine(s: State, pad: byte, rec: seq<byte>, upper: nat)
    requires IsAddress(rec, upper) && upper % 0x1_0000 == 0 && upper <= MAX_MASK && !s.eof && !s.fatal
    ensures ReadLine(s, pad, Text(rec)) == s.(lba := upper, mask := if rec[3] == 4 then MAX_MASK else SEG_MASK)
  {
    hide Sum, Text, ReadLine, Effect;
    RecordRead(s, pad, rec);
    AddressRead(s, pad, rec, upper);
  }

  /** Linear and segment address records of a 64K boundary. */
  lemma {:induction false} AddressRead(s: State, pad: byte, rec: seq<byte>, upper: nat)
    requires IsAddress(rec, upper) && upper % 0x1_0000 == 0 && upper <= MAX_MASK
    ensures Effect(s, pad, Text(rec)) == s.(lba := upper, mask := if rec[3] == 4 then MAX_MASK else SEG_MASK)
  {
    hide Sum, Text, PutData, RawByte, ByteOf;
    TextByte(rec, 0);
    TextByte(rec, 3);
    TextByte(rec, 4);
    TextByte(rec, 5);
    AddressWord(upper);
  }

  /** The type of the address records for a ROM of this size: by segment (2) if that is asked for
      and the ROM has at most one megabyte, linear (4) otherwise. */
  function AddressKind(size: nat, segmented: bool): byte {
    if segmented && size <= 0x10_0000 then 2 else 4
  }

  /** A data record of 1 to 16 bytes that neither begins nor ends with padding. */
  predicate Trim(rec: seq<byte>, pad: byte) {
    |rec| >= 6 && 0 < rec[0] <= 16 && |rec| == 5 + rec[0] as nat && rec[4] != pad && rec[|rec| - 2] != pad
  }

  // -------------------------------------------------------------------- the writer

  class Writer {
    const buffer: array<byte>
    const pad: byte
    const segmented: bool
    var out: seq<string>
    var line: string
    var checksum: nat
    var upperLba: nat
    ghost var rec: seq<byte>
    ghost var recs: seq<seq<byte>>

    constructor (rom: array<byte>, p: byte, seg: bool)
      ensures buffer == rom && pad == p && segmented == seg && out == [] && upperLba == 0 && recs == []
    {
      buffer, pad, segmented, out, line, checksum, upperLba, rec, recs := rom, p, seg, [], "", 0, 0, [], [];
    }

    /** The text of the record so far, and the byte that would complete it. */
    ghost predicate Building()
      reads `line, `checksum, `rec
    {
      line == Text(rec) && checksum == (256 - Sum(rec)) % 256
    }

    /** Everything written is records in order. */
    ghost predicate Written()
      reads `out, `recs
    {
      |out| == |recs| && forall i :: 0 <= i < |out| ==>
        out[i] == Text(recs[i]) && GoodRecord(recs[i]) && recs[i][3] in {0, 1, AddressKind(buffer.Length, segmented)}
        && (recs[i][3] == 0 ==> Trim(recs[i], pad))
    }

    method HoutByte(data: byte)
      requires Building()
      modifies `line, `checksum, `rec
      ensures Building() && rec == old(rec) + [data]
    {
      hide Sum, Text, Digit;
      ChecksumStep(rec, data, checksum);
      TextStep(rec, data);
      checksum := (checksum + 256 - data as nat) % 256;
      line := line + [Digit(data as nat / 16), Digit(data as nat % 16)];
      rec := rec + [data];
    }

    method HoutWord(data: nat)
      requires Building() && data < 0x1_0000
      modifies `line, `checksum, `rec
      ensures Building() && rec == old(rec) + [(data / 256) as byte, (data % 256) as byte]
    {
      HoutByte((data / 256) as byte);
      HoutByte((data % 256) as byte);
    }

    method BeginRecord(length: byte)
      modifies `line, `checksum, `rec
      ensures Building() && rec == [length]
    {
      checksum, line, rec := 0, ":", [];
      HoutByte(length);
    }

    method EndRecord()
      requires Building() && Written() && |rec| >= 4 && |rec| == 4 + rec[0] as nat
      requires rec[3] in {0, 1, AddressKind(buffer.Length, segmented)}
      requires rec[3] == 0 ==> 0 < rec[0] <= 16 && rec[4] != pad && rec[|rec| - 1] != pad
      requires rec[3] == 0 ==> 256 * rec[1] as nat + rec[2] as nat + rec[0] as nat <= 0x1_0000
      modifies `line, `checksum, `rec, `recs, `out
      ensures Written() && GoodRecord(rec) && rec[..|rec| - 1] == old(rec)
      ensures recs == old(recs) + [rec] && out == old(out) + [Text(rec)]
    {
      HoutByte(checksum as byte);
      out, recs := out + [line], recs + [rec];
    }

    /** What a reader of the lines written so far has: this image, and no messages. */
    ghost predicate Reads(img: seq<byte>)
      reads `out, `upperLba
    {
      var s := ReadAll(Start(pad, buffer.Length), pad, out);
      s == State(upperLba, s.mask, img, 0, 0, false, false) && upperLba % 0x1_0000 == 0 && upperLba <= MAX_MASK
    }

    /** write_lba: an address record whenever the upper address changes. */
    method WriteLba(address: nat, ghost img: seq<byte>)
      requires Written() && Reads(img) && address < buffer.Length <= 0x100_0000
      modifies this
      ensures Written() && Reads(img) && upperLba == address - address % 0x1_0000
      ensures if upperLba == old(upperLba) then out == old(out)
              else out == old(out) + [Text(rec)] && IsAddress(rec, upperLba) && rec[3] == AddressKind(buffer.Length, segmented)
    {
      hide Sum, ReadAll, Start, Text, Effect, ReadLine, Padding, Building;
      var upper := address - address % 0x1_0000;
      if upper != upperLba {
        ghost var s, lines := ReadAll(Start(pad, buffer.Length), pad, out), out;
        upperLba := upper;
        AddressRecord();
        AddressLine(s, pad, rec, upper);
        OneMore(Start(pad, buffer.Length), pad, lines, Text(rec));
      }
    }

    /** The record of write_lba: linear, or by segment for a ROM of one megabyte at most. */
    method AddressRecord()
      requires Written() && upperLba % 0x1_0000 == 0 && upperLba < buffer.Length <= 0x100_0000
      modifies `line, `checksum, `rec, `recs, `out
      ensures Written() && out == old(out) + [Text(rec)]
      ensures IsAddress(rec, upperLba) && rec[3] == AddressKind(buffer.Length, segmented)
    {
      hide Sum, Text, Building, Written;
      BeginRecord(2);
      HoutWord(0);
      if buffer.Length > ONE_MEG || !segmented {
        HoutByte(4);
        HoutWord(upperLba / 0x1_0000);
      } else {
        HoutByte(2);
        HoutWord(upperLba / 16);
      }
      ghost var r := rec;
      EndRecord();
      assert forall i :: 0 <= i < 6 ==> rec[i] == rec[..|rec| - 1][i] == r[i];
    }

    /** write_data: the bytes without the padding at both ends, if any are left. */
    method WriteData(count: nat, start: nat, vaddr: nat, ghost img: seq<byte>)
      requires Written() && Reads(img) && |img| == buffer.Length <= 0x100_0000
      requires count <= NREC && start + count <= buffer.Length && vaddr + count <= |img|
      requires vaddr % 0x1_0000 + count <= 0x1_0000 && AllPad(img, pad, vaddr, count)
      modifies this
      ensures Written() && Reads(Patched(img, vaddr, buffer[start..start + count]))
      ensures (forall i :: start <= i < start + count ==> buffer[i] == pad) ==> out == old(out)
    {
      hide Sum, ReadAll, Start, Text, Effect, ReadLine, Padding, Reads, Written, Patched;
      var nbytes: nat, buf: nat, address: nat := count, start, vaddr;
      while nbytes > 0 && buffer[buf + nbytes - 1] == pad
        invariant nbytes <= count
        invariant forall i :: start + nbytes <= i < start + count ==> buffer[i] == pad
      {
        nbytes := nbytes - 1;
      }
      ghost var end := buf + nbytes;
      while nbytes > 0 && buffer[buf] == pad
        invariant buf - start == address - vaddr >= 0 && buf + nbytes == end <= start + count
        invariant nbytes > 0 ==> buffer[buf + nbytes - 1] != pad
        invariant forall i :: start <= i < buf ==> buffer[i] == pad
      {
        buf, address, nbytes := buf + 1, address + 1, nbytes - 1;
      }
      Trimmed(img, pad, vaddr, buffer[start..start + count], address - vaddr, nbytes);
      SubSlice(buffer[..], start, count, address - vaddr, nbytes);
      assert buffer[start..start + count] == buffer[..][start..start + count];
      assert buffer[buf..buf + nbytes] == buffer[..][buf..buf + nbytes];
      if nbytes > 0 {
        WriteLba(address, img);
        DataLine(nbytes, buf, address, img);
      } else {
        PatchNothing(img, address);
      }
    }

    /** The data record of write_data. */
    method DataLine(nbytes: nat, buf: nat, address: nat, ghost img: seq<byte>)
      requires Written() && Reads(img) && |img| == buffer.Length <= 0x100_0000 && upperLba == address - address % 0x1_0000
      requires 0 < nbytes <= NREC && buf + nbytes <= buffer.Length && address + nbytes <= |img|
      requires address % 0x1_0000 + nbytes <= 0x1_0000 && AllPad(img, pad, address, nbytes)
      requires buffer[buf] != pad && buffer[buf + nbytes - 1] != pad
      modifies this
      ensures Written() && Reads(Patched(img, address, buffer[buf..buf + nbytes]))
    {
      hide Sum, ReadAll, Start, Text, Effect, ReadLine, Padding, Patched, Building, Written;
      ghost var s, lines := ReadAll(Start(pad, buffer.Length), pad, out), out;
      BeginRecord(nbytes as byte);
      HoutWord(address % 0x1_0000);
      HoutByte(0);
      var i: nat := 0;
      ghost var head := rec;
      while i < nbytes
        invariant i <= nbytes && Building() && rec == head + buffer[buf..buf + i]
        modifies `line, `checksum, `rec
      {
        HoutByte(buffer[buf + i]);
        i := i + 1;
      }
      EndRecord();
      DataBytes(s, pad, rec, head, buffer[buf..buf + nbytes], address);
      OneMore(Start(pad, buffer.Length), pad, lines, Text(rec));
    }

    /** write_hex_file.  Read into a buffer full of the same padding, the file gives back the
        ROM with no message and no byte written twice; every record sums to zero and none
        crosses a 64K boundary. */
    method WriteHexFile()
      requires 256 <= buffer.Length <= 0x100_0000 && out == [] && upperLba == 0 && recs == []
      modifies this
      ensures Written()
      ensures ReadAll(Start(pad, buffer.Length), pad, out)
              == State(upperLba, ReadAll(Start(pad, buffer.Length), pad, out).mask, buffer[..], 0, 0, true, false)
    {
      hide Sum, Text, Effect, ReadLine, ReadAll, Start, Patched, Building, Written, Reads, Padding;
      var nbytes: nat, vaddr: nat := buffer.Length, 0;
      ghost var img := Padding(pad, buffer.Length);
      NothingWritten();
      var n := Min(nbytes, NREC);
      while n > 0
        invariant n == Min(nbytes, NREC) && nbytes + vaddr == buffer.Length
        invariant nbytes == 0 || vaddr % NREC == 0
        invariant Written() && Reads(img) && |img| == buffer.Length
        invariant img[..vaddr] == buffer[..vaddr] && AllPad(img, pad, vaddr, nbytes)
        decreases nbytes
      {
        WriteData(n, vaddr, vaddr, img);
        PatchFront(img, vaddr, buffer[..], n, pad);
        img := Patched(img, vaddr, buffer[vaddr..vaddr + n]);
        vaddr := vaddr + n;
        nbytes := nbytes - n;
        n := Min(nbytes, NREC);
      }
      assert img == buffer[..];
      EndOfFile(img);
    }

    lemma NothingWritten()
      requires out == [] && recs == [] && upperLba == 0
      ensures Written() && Reads(Padding(pad, buffer.Length))
    {}

    /** The end-of-file record, printed as it stands. */
    method EndOfFile(ghost img: seq<byte>)
      requires Written() && Reads(img)
      modifies this
      ensures Written() && ReadAll(Start(pad, buffer.Length), pad, out)
              == State(upperLba, ReadAll(Start(pad, buffer.Length), pad, out).mask, img, 0, 0, true, false)
    {
      hide Sum, ReadAll, Start, Text, Effect, ReadLine, Padding;
      ghost var s, lines := ReadAll(Start(pad, buffer.Length), pad, out), out;
      EofRecord(s, pad);
      OneMore(Start(pad, buffer.Length), pad, out, ":00000001FF");
      out, recs := out + [":00000001FF"], recs + [[0, 0, 0, 1, 255]];
    }
  }

  lemma {:induction false} ChecksumStep(rec: seq<byte>, data: byte, checksum: nat)
    requires checksum == (256 - Sum(rec)) % 256
    ensures (checksum + 256 - data as nat) % 256 == (256 - Sum(rec + [data])) % 256
  {
    assert (rec + [data])[..|rec|] == rec;
    var t, u := Sum(rec), Sum(rec + [data]);
    hide Sum;
    assert u == if t + data as nat < 256 then t + data as nat else t + data as nat - 256;
    assert checksum == if t == 0 then 0 else 256 - t;
  }

  lemma {:induction false} TextStep(rec: seq<byte>, data: byte)
    ensures Text(rec + [data]) == Text(rec) + [Digit(data as nat / 16), Digit(data as nat % 16)]
  {
    hide Digit;
    assert (rec + [data])[..|rec|] == rec;
  }

  /** The line is a record in order: trimmed data, end of file, or an address record of this type. */
  ghost predicate IsRecord(line: string, kind: byte, pad: byte) {
    exists rec :: line == Text(rec) && GoodRecord(rec) && rec[3] in {0, 1, kind} && (rec[3] == 0 ==> Trim(rec, pad))
  }

  lemma {:induction false} OneMore(s: State, pad: byte, lines: seq<string>, line: string)
    ensures ReadAll(s, pad, lines + [line]) == ReadLine(ReadAll(s, pad, lines), pad, line)
  {
    assert (lines + [line])[..|lines|] == lines;
  }

  lemma {:induction false} SubSlice(s: seq<byte>, a: nat, n: nat, skip: nat, m: nat)
    requires a + n <= |s| && skip + m <= n
    ensures s[a..a + n][skip..skip + m] == s[a + skip..a + skip + m]
  {
    var u, v := s[a..a + n][skip..skip + m], s[a + skip..a + skip + m];
    assert |u| == |v| == m;
    forall i | 0 <= i < m ensures u[i] == v[i] {
      assert u[i] == s[a..a + n][skip + i];
    }
  }

  /** Leaving out padding at both ends changes nothing where there is padding already. */
  lemma {:induction false} Trimmed(img: seq<byte>, pad: byte, at: nat, data: seq<byte>, skip: nat, n: nat)
    requires at + |data| <= |img| && AllPad(img, pad, at, |data|) && skip + n <= |data|
    requires forall i :: 0 <= i < |data| && !(skip <= i < skip + n) ==> data[i] == pad
    ensures Patched(img, at + skip, data[skip..skip + n]) == Patched(img, at, data)
  {
    var a, b := Patched(img, at + skip, data[skip..skip + n]), Patched(img, at, data);
    forall i | 0 <= i < |img| ensures a[i] == b[i] {}
  }

  /** The next piece of the ROM. */
  lemma {:induction false} PatchFront(img: seq<byte>, at: nat, rom: seq<byte>, n: nat, pad: byte)
    requires |rom| == |img| && at + n <= |img| && img[..at] == rom[..at] && AllPad(img, pad, at, |img| - at)
    ensures Patched(img, at, rom[at..at + n])[..at + n] == rom[..at + n]
    ensures AllPad(Patched(img, at, rom[at..at + n]), pad, at + n, |img| - at - n)
  {}

  lemma {:induction false} EofRecord(s: State, pad: byte)
    requires !s.eof && !s.fatal
    ensures Text([0, 0, 0, 1, 255]) == ":00000001FF" && GoodRecord([0, 0, 0, 1, 255])
    ensures ReadLine(s, pad, ":00000001FF") == s.(eof := true)
  {
    hide Text, Sum, Hex, ReadLine;
    var rec: seq<byte> := [0, 0, 0, 1, 255];
    EofText(rec);
    EofSum(rec);
    RecordRead(s, pad, rec);
  }

  lemma {:induction false} EofText(rec: seq<byte>)
    requires rec == [0, 0, 0, 1, 255]
    ensures Text(rec) == ":00000001FF"
  {
    hide Hex;
    forall k | 0 <= k < 5 ensures Hex(rec)[2 * k] == "00000001FF"[2 * k] && Hex(rec)[2 * k + 1] == "00000001FF"[2 * k + 1] {
      HexAt(rec, k);
    }
    forall i | 0 <= i < 10 ensures Hex(rec)[i] == "00000001FF"[i] {
      assert i == 2 * (i / 2) || i == 2 * (i / 2) + 1;
    }
  }

  lemma {:induction false} EofSum(rec: seq<byte>)
    requires rec == [0, 0, 0, 1, 255]
    ensures Sum(rec) == 0
  {
    assert rec[..4] == [0, 0, 0, 1] && rec[..4][..3] == [0, 0, 0] && rec[..4][..3][..2] == [0, 0];
    assert Sum([0]) == 0 && Sum([0, 0]) == 0 by { assert [0, 0][..1] == [0]; }
    assert Sum([0, 0, 0]) == 0;
    assert Sum([0, 0, 0, 1]) == 1;
  }

  /** What the reader makes of a data record. */
  lemma {:induction false} DataBytes(s: State, pad: byte, rec: seq<byte>, head: seq<byte>, data: seq<byte>, address: nat)
    requires GoodRecord(rec) && 0 < |data| <= NREC && rec[..|rec| - 1] == head + data && |head| == 4
    requires head[0] as nat == |data| && head[1] as nat == address % 0x1_0000 / 256
             && head[2] as nat == address % 0x1_0000 % 256 && head[3] == 0
    requires !s.eof && !s.fatal && |s.buf| <= 0x100_0000 && s.lba == address - address % 0x1_0000
    requires address + |data| <= |s.buf| && AllPad(s.buf, pad, address, |data|)
    ensures ReadLine(s, pad, Text(rec)) == s.(buf := Patched(s.buf, address, data))
  {
    hide Sum, Text, PutData, ReadLine, Patched, AllPad;
    assert forall i :: 0 <= i < 4 ==> rec[i] == rec[..|rec| - 1][i] == head[i];
    assert rec[4..4 + |data|] == data by {
      assert rec[..|rec| - 1][4..] == data;
    }
    RecordRead(s, pad, rec);
    assert s.lba + Offset(rec) == address;
    DataRead(s, pad, rec, |data|);
  }

  /** bin2hex and then hex2bin, with the same padding and ROM size: the ROM comes back, with
      no checksum failure, no illegal digit and no overwriting reported. */
  method RoundTrip(rom: array<byte>, pad: byte, segmented: bool) returns (lines: seq<string>, back: seq<byte>, r: Reader)
    requires 256 <= rom.Length <= 0x100_0000
    ensures back == rom[..] && r.errors == r.overwrite == 0 && !r.fatal
    ensures lines != [] && forall i :: 0 <= i < |lines| ==> IsRecord(lines[i], AddressKind(rom.Length, segmented), pad)
  {
    hide Sum, Text, ReadLine, ReadAll, Padding, GoodRecord;
    var w := new Writer(rom, pad, segmented);
    w.WriteHexFile();
    lines := w.out;
    forall i | 0 <= i < |lines| ensures IsRecord(lines[i], AddressKind(rom.Length, segmented), pad) {
      assert lines[i] == Text(w.recs[i]) && GoodRecord(w.recs[i]);
    }
    SomethingWritten(Start(pad, rom.Length), pad, lines);
    r := new Reader(pad, rom.Length);
    var eof := r.ScanFile(lines);
    back := r.buffer[..];
  }

  lemma SomethingWritten(s: State, pad: byte, lines: seq<string>)
    requires ReadAll(s, pad, lines).eof && !s.eof
    ensures lines != []
  {}
}
