/**
 The decoder (snappy.cc, SnappyDecompressor): the tag lookup table, refilling from a
 source that hands out its bytes in arbitrary pieces, and the loop over all tags.
 */
module SnappyTable {
  import opened Basics
  import opened SnappyFormat

  /** What an entry of char_table has to be, from the format's layout of opcode c. */
  function Entry(c: Byte): nat {
    if c % 4 == 0 then
      if c / 4 < 60 then c / 4 + 1 else 2048 * (c / 4 - 59) + 1
    else if c % 4 == 1 then 2048 + 256 * (c / 32) + 4 + c / 4 % 8
    else if c % 4 == 2 then 2 * 2048 + c / 4 + 1
    else 4 * 2048 + c / 4 + 1
  }

  /** char_table, in quarters.  Bits 0..7 of an entry are the length in the opcode byte,
      bits 8..10 the high bits of a copy offset, bits 11..13 the number of bytes behind
      the opcode.  All 256 constants are checked against the layout. */
  function CharTable(c: Byte): (r: nat)
    ensures r == Entry(c)
  {
    if c < 64 then Quarter0(c) else if c < 128 then Quarter1(c) else if c < 192 then Quarter2(c) else Quarter3(c)
  }

  function Quarter0(c: Byte): (r: nat)
    requires 0 <= c < 64
    ensures r == Entry(c)
  {
    match c
    case 0 => 0x0001 case 1 => 0x0804 case 2 => 0x1001 case 3 => 0x2001
    case 4 => 0x0002 case 5 => 0x0805 case 6 => 0x1002 case 7 => 0x2002
    case 8 => 0x0003 case 9 => 0x0806 case 10 => 0x1003 case 11 => 0x2003
    case 12 => 0x0004 case 13 => 0x0807 case 14 => 0x1004 case 15 => 0x2004
    case 16 => 0x0005 case 17 => 0x0808 case 18 => 0x1005 case 19 => 0x2005
    case 20 => 0x0006 case 21 => 0x0809 case 22 => 0x1006 case 23 => 0x2006
    case 24 => 0x0007 case 25 => 0x080a case 26 => 0x1007 case 27 => 0x2007
    case 28 => 0x0008 case 29 => 0x080b case 30 => 0x1008 case 31 => 0x2008
    case 32 => 0x0009 case 33 => 0x0904 case 34 => 0x1009 case 35 => 0x2009
    case 36 => 0x000a case 37 => 0x0905 case 38 => 0x100a case 39 => 0x200a
    case 40 => 0x000b case 41 => 0x0906 case 42 => 0x100b case 43 => 0x200b
    case 44 => 0x000c case 45 => 0x0907 case 46 => 0x100c case 47 => 0x200c
    case 48 => 0x000d case 49 => 0x0908 case 50 => 0x100d case 51 => 0x200d
    case 52 => 0x000e case 53 => 0x0909 case 54 => 0x100e case 55 => 0x200e
    case 56 => 0x000f case 57 => 0x090a case 58 => 0x100f case 59 => 0x200f
    case 60 => 0x0010 case 61 => 0x090b case 62 => 0x1010 case _ => 0x2010
  }

  function Quarter1(c: Byte): (r: nat)
    requires 64 <= c < 128
    ensures r == Entry(c)
  {
    match c
    case 64 => 0x0011 case 65 => 0x0a04 case 66 => 0x1011 case 67 => 0x2011
    case 68 => 0x0012 case 69 => 0x0a05 case 70 => 0x1012 case 71 => 0x2012
    case 72 => 0x0013 case 73 => 0x0a06 case 74 => 0x1013 case 75 => 0x2013
    case 76 => 0x0014 case 77 => 0x0a07 case 78 => 0x1014 case 79 => 0x2014
    case 80 => 0x0015 case 81 => 0x0a08 case 82 => 0x1015 case 83 => 0x2015
    case 84 => 0x0016 case 85 => 0x0a09 case 86 => 0x1016 case 87 => 0x2016
    case 88 => 0x0017 case 89 => 0x0a0a case 90 => 0x1017 case 91 => 0x2017
    case 92 => 0x0018 case 93 => 0x0a0b case 94 => 0x1018 case 95 => 0x2018
    case 96 => 0x0019 case 97 => 0x0b04 case 98 => 0x1019 case 99 => 0x2019
    case 100 => 0x001a case 101 => 0x0b05 case 102 => 0x101a case 103 => 0x201a
    case 104 => 0x001b case 105 => 0x0b06 case 106 => 0x101b case 107 => 0x201b
    case 108 => 0x001c case 109 => 0x0b07 case 110 => 0x101c case 111 => 0x201c
    case 112 => 0x001d case 113 => 0x0b08 case 114 => 0x101d case 115 => 0x201d
    case 116 => 0x001e case 117 => 0x0b09 case 118 => 0x101e case 119 => 0x201e
    case 120 => 0x001f case 121 => 0x0b0a case 122 => 0x101f case 123 => 0x201f
    case 124 => 0x0020 case 125 => 0x0b0b case 126 => 0x1020 case _ => 0x2020
  }

  function Quarter2(c: Byte): (r: nat)
    requires 128 <= c < 192
    ensures r == Entry(c)
  {
    match c
    case 128 => 0x0021 case 129 => 0x0c04 case 130 => 0x1021 case 131 => 0x2021
    case 132 => 0x0022 case 133 => 0x0c05 case 134 => 0x1022 case 135 => 0x2022
    case 136 => 0x0023 case 137 => 0x0c06 case 138 => 0x1023 case 139 => 0x2023
    case 140 => 0x0024 case 141 => 0x0c07 case 142 => 0x1024 case 143 => 0x2024
    case 144 => 0x0025 case 145 => 0x0c08 case 146 => 0x1025 case 147 => 0x2025
    case 148 => 0x0026 case 149 => 0x0c09 case 150 => 0x1026 case 151 => 0x2026
    case 152 => 0x0027 case 153 => 0x0c0a case 154 => 0x1027 case 155 => 0x2027
    case 156 => 0x0028 case 157 => 0x0c0b case 158 => 0x1028 case 159 => 0x2028
    case 160 => 0x0029 case 161 => 0x0d04 case 162 => 0x1029 case 163 => 0x2029
    case 164 => 0x002a case 165 => 0x0d05 case 166 => 0x102a case 167 => 0x202a
    case 168 => 0x002b case 169 => 0x0d06 case 170 => 0x102b case 171 => 0x202b
    case 172 => 0x002c case 173 => 0x0d07 case 174 => 0x102c case 175 => 0x202c
    case 176 => 0x002d case 177 => 0x0d08 case 178 => 0x102d case 179 => 0x202d
    case 180 => 0x002e case 181 => 0x0d09 case 182 => 0x102e case 183 => 0x202e
    case 184 => 0x002f case 185 => 0x0d0a case 186 => 0x102f case 187 => 0x202f
    case 188 => 0x0030 case 189 => 0x0d0b case 190 => 0x1030 case _ => 0x2030
  }

  function Quarter3(c: Byte): (r: nat)
    requires 192 <= c < 256
    ensures r == Entry(c)
  {
    match c
    case 192 => 0x0031 case 193 => 0x0e04 case 194 => 0x1031 case 195 => 0x2031
    case 196 => 0x0032 case 197 => 0x0e05 case 198 => 0x1032 case 199 => 0x2032
    case 200 => 0x0033 case 201 => 0x0e06 case 202 => 0x1033 case 203 => 0x2033
    case 204 => 0x0034 case 205 => 0x0e07 case 206 => 0x1034 case 207 => 0x2034
    case 208 => 0x0035 case 209 => 0x0e08 case 210 => 0x1035 case 211 => 0x2035
    case 212 => 0x0036 case 213 => 0x0e09 case 214 => 0x1036 case 215 => 0x2036
    case 216 => 0x0037 case 217 => 0x0e0a case 218 => 0x1037 case 219 => 0x2037
    case 220 => 0x0038 case 221 => 0x0e0b case 222 => 0x1038 case 223 => 0x2038
    case 224 => 0x0039 case 225 => 0x0f04 case 226 => 0x1039 case 227 => 0x2039
    case 228 => 0x003a case 229 => 0x0f05 case 230 => 0x103a case 231 => 0x203a
    case 232 => 0x003b case 233 => 0x0f06 case 234 => 0x103b case 235 => 0x203b
    case 236 => 0x003c case 237 => 0x0f07 case 238 => 0x103c case 239 => 0x203c
    case 240 => 0x0801 case 241 => 0x0f08 case 242 => 0x103d case 243 => 0x203d
    case 244 => 0x1001 case 245 => 0x0f09 case 246 => 0x103e case 247 => 0x203e
    case 248 => 0x1801 case 249 => 0x0f0a case 250 => 0x103f case 251 => 0x203f
    case 252 => 0x2001 case 253 => 0x0f0b case 254 => 0x1040 case _ => 0x2040
  }
}

/** One face for the four writers; the C++ code is a template over them. */
module SnappyOutput {
  import opened Basics
  import opened SnappyFormat
  import opened SnappyWriters
  import opened SnappyIOVec

  datatype Writer =
    | ToArray(a: ArrayWriter) | ToBlocks(s: ScatteredWriter) | ToIOVec(i: IOVecWriter) | ToNowhere(v: Validator)
  {
    ghost function Root(): object {
      match this
      case ToArray(a) => a
      case ToBlocks(s) => s
      case ToIOVec(i) => i
      case ToNowhere(v) => v
    }

    /** Everything the writer may change. */
    ghost function Repr(): set<object>
      reads Root()
    {
      match this
      case ToArray(a) => {a, a.base}
      case ToBlocks(s) => s.Repr
      case ToIOVec(i) => {i} + (set b: object | b in i.iov)
      case ToNowhere(v) => {v}
    }

    ghost function Parts(): set<object>
      reads Root()
    {
      match this
      case ToArray(a) => {a.base}
      case ToBlocks(s) => {s.base} + (set b: object | b in s.blocks)
      case ToIOVec(i) => set b: object | b in i.iov
      case ToNowhere(_) => {}
    }

    ghost predicate Valid()
      reads Root(), Parts()
    {
      match this
      case ToArray(a) => a.Valid()
      case ToBlocks(s) => s.Valid()
      case ToIOVec(i) => i.Valid()
      case ToNowhere(v) => v.Valid()
    }

    ghost function Contents(): seq<Byte>
      requires Valid()
      reads Root(), Parts()
    {
      match this
      case ToArray(a) => a.Contents()
      case ToBlocks(s) => s.Contents()
      case ToIOVec(i) => i.Contents()
      case ToNowhere(v) => v.contents
    }

    lemma Covered()
      requires Valid()
      ensures Root() in Repr() && Parts() <= Repr()
    {}

    ghost function Expected(): nat
      reads Root()
    {
      match this
      case ToArray(a) => a.limit
      case ToBlocks(s) => s.expected
      case ToIOVec(i) => i.limit
      case ToNowhere(v) => v.expected
    }

    /** Nothing written yet, and room for len bytes. */
    ghost predicate Unused(len: nat)
      reads Root()
    {
      match this
      case ToArray(a) => a.op == 0 && len <= a.base.Length
      case ToBlocks(s) => s.blocks == []
      case ToIOVec(i) => i.total == 0 && len <= Start(i.iov, |i.iov|)
      case ToNowhere(v) => v.produced == 0
    }

    method SetExpectedLength(len: nat)
      requires Valid() && Unused(len)
      modifies Repr()
      ensures Valid() && Contents() == [] && Expected() == len && Repr() == old(Repr()) && Parts() == old(Parts())
    {
      match this
      case ToArray(a) => a.SetExpectedLength(len);
      case ToBlocks(s) => s.SetExpectedLength(len);
      case ToIOVec(i) => i.SetExpectedLength(len);
      case ToNowhere(v) => v.SetExpectedLength(len);
    }

    /** Appends ip unless that passes the expected length. */
    method Append(ip: seq<Byte>) returns (ok: bool)
      requires Valid()
      modifies Repr()
      ensures Expected() == old(Expected()) && fresh(Repr() - old(Repr()))
      ensures ok == (|old(Contents())| + |ip| <= Expected())
      ensures ok ==> Valid() && Contents() == old(Contents()) + ip
    {
      match this
      case ToArray(a) => ok := a.Append(ip);
      case ToBlocks(s) => ok := s.Append(ip);
      case ToIOVec(i) => ok := i.Append(ip);
      case ToNowhere(v) => ok := v.Append(ip);
    }

    /** May decline; if it does not, it has appended the literal and at least a tag's
        worth of input is left in the window. */
    method TryFastAppend(ip: seq<Byte>, len: nat) returns (ok: bool)
      requires Valid()
      modifies Repr()
      ensures Valid() && Expected() == old(Expected()) && fresh(Repr() - old(Repr()))
      ensures ok ==> len <= 16 && 16 + MAX_TAG <= |ip| && Contents() == old(Contents()) + ip[..len]
      ensures !ok ==> Contents() == old(Contents())
    {
      match this
      case ToArray(a) => ok := a.TryFastAppend(ip, len);
      case ToBlocks(s) => ok := s.TryFastAppend(ip, len);
      case ToIOVec(i) => ok := i.TryFastAppend(ip, len);
      case ToNowhere(v) => ok := false;
    }

    /** Appends a copy unless it reaches in front of the output or past its end. */
    method AppendFromSelf(offset: nat, len: nat) returns (ok: bool)
      requires Valid() && len <= 64
      modifies Repr()
      ensures Expected() == old(Expected()) && fresh(Repr() - old(Repr()))
      ensures ok == (1 <= offset <= |old(Contents())| && |old(Contents())| + len <= Expected())
      ensures ok ==> Valid() && Contents() == CopyFrom(old(Contents()), offset, len)
    {
      match this
      case ToArray(a) => ok := a.AppendFromSelf(offset, len);
      case ToBlocks(s) => ok := s.AppendFromSelf(offset, len);
      case ToIOVec(i) => ok := i.AppendFromSelf(offset, len);
      case ToNowhere(v) => ok := v.AppendFromSelf(offset, len);
    }

    method CheckLength() returns (ok: bool)
      requires Valid()
      ensures ok == (|Contents()| == Expected())
    {
      match this
      case ToArray(a) => ok := a.op == a.limit;
      case ToBlocks(s) => ok := s.fullSize + s.op == s.expected;
      case ToIOVec(i) => ok := i.total == i.limit;
      case ToNowhere(v) => ok := v.expected == v.produced;
    }
  }
}

module SnappyDecompress {
  import opened Basics
  import opened SnappyFormat
  import opened SnappyBits
  import opened SnappyTable
  import opened SnappyWriters
  import opened SnappyIOVec
  import opened SnappyOutput
  import opened SnappySource

  /** A stream the writer must end up refusing: malformed, or too long. */
  predicate Refused(target: Option<seq<Byte>>, expected: nat) {
    target.None? || |target.value| > expected
  }

  /** The number of bytes of tag in front of the data: opcode and trailer. */
  function TagBytes(c: Byte): (r: nat)
    ensures 1 <= r <= 5
  {
    1 + if c % 4 == 0 then (if c / 4 < 60 then 0 else c / 4 - 59) else if c % 4 == 3 then 4 else c % 4
  }

  // ----- Steps of the format, one element at a time --------------------------------

  lemma TooShort(rest: seq<Byte>, out: seq<Byte>)
    requires rest != [] && |rest| < TagBytes(rest[0])
    ensures Decode32(rest, out) == None
  {}

  function LiteralLength(rest: seq<Byte>): nat
    requires rest != [] && rest[0] % 4 == 0 && TagBytes(rest[0]) <= |rest|
  {
    if rest[0] / 4 < 60 then rest[0] / 4 + 1 else (LE(rest[1..TagBytes(rest[0])]) + 1) % 0x1_0000_0000
  }

  lemma LiteralStep(rest: seq<Byte>, out: seq<Byte>)
    requires rest != [] && rest[0] % 4 == 0 && TagBytes(rest[0]) <= |rest|
    ensures var data, len := rest[TagBytes(rest[0])..], LiteralLength(rest);
            Decode32(rest, out) == if |data| < len then None else Decode32(data[len..], out + data[..len])
  {
    hide Decode32;
    LiteralParse(rest);
    var t, len := TagBytes(rest[0]), LiteralLength(rest);
    DropDrop(rest, t, len);
    ParsedStep(rest, out);
  }

  lemma DropDrop(s: seq<Byte>, a: nat, b: nat)
    requires a <= |s|
    ensures a + b <= |s| ==> s[a + b..] == s[a..][b..]
  {}

  lemma ParsedStep(rest: seq<Byte>, out: seq<Byte>)
    requires rest != []
    ensures var p := ParseElement32(rest);
            Decode32(rest, out) ==
            if p.Elem? && Applicable(out, p.e) then Decode32(rest[p.size..], Apply(out, p.e)) else None
  {}

  lemma LiteralParse(rest: seq<Byte>)
    requires rest != [] && rest[0] % 4 == 0 && TagBytes(rest[0]) <= |rest|
    ensures var t, len := TagBytes(rest[0]), LiteralLength(rest);
            ParseElement32(rest) == if |rest| < t + len then Bad else Elem(Literal(rest[t..][..len]), t + len)
  {
    var t, len := TagBytes(rest[0]), LiteralLength(rest);
    if |rest| >= t + len {
      assert rest[t..t + len] == rest[t..][..len];
    }
  }

  function CopyLength(c: Byte): nat {
    if c % 4 == 1 then 4 + c / 4 % 8 else 1 + c / 4
  }

  function CopyOffset(rest: seq<Byte>): nat
    requires rest != [] && rest[0] % 4 != 0 && TagBytes(rest[0]) <= |rest|
  {
    var high: nat := if rest[0] % 4 == 1 then rest[0] / 32 else 0;
    256 * high + LE(rest[1..TagBytes(rest[0])])
  }

  lemma CopyParse(rest: seq<Byte>)
    requires rest != [] && rest[0] % 4 != 0 && TagBytes(rest[0]) <= |rest|
    ensures ParseElement32(rest) == Elem(Copy(CopyOffset(rest), CopyLength(rest[0])), TagBytes(rest[0]))
  {
    if rest[0] % 4 == 1 {
      assert rest[1..2] == [rest[1]];
      LE1(rest[1]);
    }
  }

  lemma CopyStep(rest: seq<Byte>, out: seq<Byte>)
    requires rest != [] && rest[0] % 4 != 0 && TagBytes(rest[0]) <= |rest|
    ensures Decode32(rest, out) ==
            if 1 <= CopyOffset(rest) <= |out|
            then Decode32(rest[TagBytes(rest[0])..], CopyFrom(out, CopyOffset(rest), CopyLength(rest[0])))
            else None
  {
    CopyParse(rest);
  }

  /** Too much output stays too much. */
  lemma OutputGrows(rest: seq<Byte>, out: seq<Byte>, expected: nat)
    requires |out| > expected
    ensures Refused(Decode32(rest, out), expected)
  {}

  // ----- A literal that arrives in pieces --------------------------------------------

  /** The decoder is in front of len bytes of literal data. */
  predicate LiteralAhead(target: Option<seq<Byte>>, rest: seq<Byte>, out: seq<Byte>, len: nat) {
    target == if |rest| < len then None else Decode32(rest[len..], out + rest[..len])
  }

  lemma LiteralAdvance(target: Option<seq<Byte>>, rest: seq<Byte>, out: seq<Byte>, len: nat, k: nat)
    requires LiteralAhead(target, rest, out, len) && k <= len && k <= |rest|
    ensures LiteralAhead(target, rest[k..], out + rest[..k], len - k)
  {
    hide Decode32;
    if len <= |rest| {
      assert rest[k..][len - k..] == rest[len..];
      assert out + rest[..len] == out + rest[..k] + rest[k..][..len - k];
    }
  }

  lemma LiteralOverflow(target: Option<seq<Byte>>, rest: seq<Byte>, out: seq<Byte>, len: nat, expected: nat)
    requires LiteralAhead(target, rest, out, len) && |out| + (if len <= |rest| then len else |rest|) > expected
    ensures Refused(target, expected)
  {
    if len <= |rest| {
      OutputGrows(rest[len..], out + rest[..len], expected);
    }
  }

  lemma LiteralCutOff(target: Option<seq<Byte>>, out: seq<Byte>, len: nat)
    requires LiteralAhead(target, [], out, len) && len > 0
    ensures target == None
  {}

  lemma LiteralDone(target: Option<seq<Byte>>, rest: seq<Byte>, out: seq<Byte>)
    requires LiteralAhead(target, rest, out, 0)
    ensures target == Decode32(rest, out)
  {
    assert rest[0..] == rest && out + rest[..0] == out;
  }

  /** The literal the fast path copies lies inside the window. */
  lemma FastLiteral(buf: seq<Byte>, ip: nat, limit: nat, behind: seq<Byte>, len: nat, out: seq<Byte>)
    requires ip + 1 + len <= limit <= |buf| && buf[ip] % 4 == 0 && len == buf[ip] / 4 + 1 <= 60
    ensures Decode32(buf[ip..limit] + behind, out) ==
            Decode32(buf[ip + 1 + len..limit] + behind, out + buf[ip + 1..limit][..len])
  {
    hide Decode32;
    var rest := buf[ip..limit] + behind;
    LiteralStep(rest, out);
    var data := buf[ip + 1..limit] + behind;
    assert rest[1..] == data;
    assert data[len..] == buf[ip + 1..limit][len..] + behind;
    assert data[..len] == buf[ip + 1..limit][..len];
  }

  // ----- The length header -----------------------------------------------------------

  function Scale(shift: nat): nat
    requires shift in {0, 7, 14, 21, 28}
  {
    if shift == 0 then 1 else if shift == 7 then 0x80 else if shift == 14 then 0x4000
    else if shift == 21 then 0x20_0000 else 0x1000_0000
  }

  lemma ScaleIs(shift: nat)
    requires shift in {0, 7, 14, 21, 28}
    ensures Scale(shift) == Pow128(shift / 7) && shift / 7 <= 4 && (shift / 7 == 4 <==> shift == 28)
  {
    Pow128Values();
  }

  /** masks[shift] keeps the bits of an 8-bit value that a 32-bit left shift loses. */
  predicate LeftShiftOverflows(value: nat, shift: nat)
    requires value < 256 && shift < 32
  {
    shift > 24 && value >= Pow2(32 - shift)
  }

  /** Adds the seven bits of byte c to the length, unless they do not fit. */
  method AddDigit(ghost s: seq<Byte>, c: Byte, shift: nat, sum: nat) returns (done: bool, ok: bool, result: nat)
    requires shift in {0, 7, 14, 21, 28} && shift / 7 < |s| && s[shift / 7] == c && PreambleAt(s, shift / 7, sum)
    ensures done ==> ok == Preamble(s, 0).Some?
    ensures done && ok ==> Preamble(s, 0) == Some(Header(result, shift / 7 + 1))
    ensures !done ==> PreambleAt(s, shift / 7 + 1, result)
  {
    hide Preamble, PreambleAt, Pow2, Pow128, Scale;
    var val: nat := c % 128;
    PreambleStep(s, shift / 7, sum);
    ScaleIs(shift);
    Pow2Values();
    if LeftShiftOverflows(val, shift) {
      return true, false, 0;
    }
    return c < 128, true, sum + val * Scale(shift);
  }

  /** No tag can be read: the input is over, cleanly or inside a tag. */
  predicate Exhausted(rest: seq<Byte>, eof: bool) {
    if eof then rest == [] else rest != [] && |rest| < TagBytes(rest[0])
  }

  lemma NoMoreTags(rest: seq<Byte>, out: seq<Byte>, eof: bool)
    requires Exhausted(rest, eof)
    ensures Decode32(rest, out) == if eof then Some(out) else None
  {
    if !eof {
      TooShort(rest, out);
    }
  }

  /** The first n bytes of the window are the first n bytes of everything. */
  lemma InWindow(buf: seq<Byte>, ip: nat, limit: nat, behind: seq<Byte>, n: nat)
    requires 1 <= n && ip + n <= limit <= |buf|
    ensures var rest := buf[ip..limit] + behind;
            rest[0] == buf[ip] && rest[1..n] == buf[ip + 1..ip + n] && rest[n..] == buf[ip + n..limit] + behind
  {
    var rest := buf[ip..limit] + behind;
    assert rest[..n] == buf[ip..ip + n];
    assert rest[1..n] == rest[..n][1..];
    assert rest[n..] == buf[ip..limit][n..] + behind;
  }

  lemma Window(buf: seq<Byte>, ip: nat, limit: nat, behind: seq<Byte>, n: nat)
    requires ip + n <= limit <= |buf|
    ensures var rest := buf[ip..limit] + behind;
            rest[..n] == buf[ip..ip + n] && rest[n..] == buf[ip + n..limit] + behind
  {}

  lemma CopyRefused(rest: seq<Byte>, out: seq<Byte>, expected: nat)
    requires rest != [] && rest[0] % 4 != 0 && TagBytes(rest[0]) <= |rest|
    requires !(1 <= CopyOffset(rest) <= |out| && |out| + CopyLength(rest[0]) <= expected)
    ensures Refused(Decode32(rest, out), expected)
  {
    CopyStep(rest, out);
    if 1 <= CopyOffset(rest) <= |out| {
      OutputGrows(rest[TagBytes(rest[0])..], CopyFrom(out, CopyOffset(rest), CopyLength(rest[0])), expected);
    }
  }

  lemma EmptyWindow(buf: seq<Byte>, ip: nat, rest: seq<Byte>)
    requires ip <= |buf|
    ensures buf[ip..ip] + rest == rest
  {}

  lemma Stitched(scratch: seq<Byte>, nbuf: nat, src: seq<Byte>, n: nat, rest: seq<Byte>)
    requires nbuf + n <= |scratch| && n <= |src| && src <= rest
    ensures var next := scratch[..nbuf] + src[..n] + scratch[nbuf + n..];
            |next| == |scratch| && next[..nbuf + n] + rest[n..] == scratch[..nbuf] + rest
  {
    var next := scratch[..nbuf] + src[..n] + scratch[nbuf + n..];
    assert next[..nbuf + n] == scratch[..nbuf] + src[..n];
    assert src[..n] == rest[..n] && rest == rest[..n] + rest[n..];
  }

  /** The conversion to the 32-bit peeked_. */
  function Narrowed(n: nat): (r: nat)
    ensures n < 0x1_0000_0000 ==> r == n
  {
    n % 0x1_0000_0000
  }

  lemma Shown(region: seq<Byte>, rest: seq<Byte>)
    requires |region| <= |rest| && region == rest[..|region|]
    ensures region[0..|region|] + rest[|region|..] == rest
  {}

  // ----- The code ------------------------------------------------------------------

  method LookUp(c: Byte) returns (entry: nat)
    ensures entry == Entry(c)
  {
    entry := CharTable(c);
  }

  /** The fields of a table entry, taken apart by shifts and masks. */
  lemma EntryFields(c: Byte)
    ensures Entry(c) / 2048 + 1 == TagBytes(c)
    ensures c % 4 != 0 ==> Entry(c) % 256 == CopyLength(c) <= 64
    ensures c % 4 != 0 ==> Entry(c) / 256 % 8 == if c % 4 == 1 then c / 32 else 0
  {}

  /** ExtractLowBytes of an unaligned load: the n bytes at i. */
  method LoadLow(s: seq<Byte>, i: nat, n: nat) returns (v: nat)
    requires i + 4 <= |s| && n <= 4
    ensures v == LE(s[i..i + n])
  {
    var word := Load32(s, i);
    v := word % Pow256(n);
    LELow(s[i..i + 4], n);
    assert s[i..i + 4][..n] == s[i..i + n];
  }

  /** SnappyDecompressor.  Its window is either a region the reader is showing, of which
      the first peeked bytes are not skipped yet, or the five-byte scratch buffer. */
  class Decompressor {
    const reader: Source
    var buf: seq<Byte>
    var ip: nat
    var limit: nat
    var peeked: nat
    var eof: bool
    var scratch: seq<Byte>

    ghost predicate Valid()
      reads this, reader
    {
      && reader.Valid() && |reader.data| < 0x1_0000_0000
      && ip <= limit <= |buf| && peeked <= reader.Available() && |scratch| == MAX_TAG
    }

    /** All bytes still to be decoded. */
    ghost function Rest(): seq<Byte>
      requires Valid()
      reads this, reader
    {
      buf[ip..limit] + reader.Rest()[peeked..]
    }

    /** A whole tag can be read, and the word load behind its opcode stays inside buf. */
    ghost predicate Ready()
      requires Valid()
      reads this, reader
    {
      ip < limit && TagBytes(buf[ip]) <= limit - ip && ip + MAX_TAG <= |buf|
    }

    constructor (reader: Source)
      requires reader.Valid() && |reader.data| < 0x1_0000_0000
      ensures Valid() && this.reader == reader && !eof && ip == limit == peeked == 0
    {
      this.reader := reader;
      buf, ip, limit, peeked, eof, scratch := [], 0, 0, 0, false, [0, 0, 0, 0, 0];
    }

    /** Reads the length header a byte at a time; it reads exactly the format's preamble. */
    method ReadUncompressedLength() returns (ok: bool, result: nat)
      requires Valid() && ip == limit == peeked == 0
      modifies reader
      ensures Valid() && ok == Preamble(old(reader.Rest()), 0).Some?
      ensures ok ==> Preamble(old(reader.Rest()), 0).value.length == result
      ensures ok ==> Rest() == old(reader.Rest())[Preamble(old(reader.Rest()), 0).value.size..]
    {
      ghost var s := reader.Rest();
      Pow128Values();
      assert PreambleAt(s, 0, 0);
      hide Preamble, PreambleAt;
      result := 0;
      var shift := 0;
      while true
        invariant Valid() && ip == limit == peeked == 0
        invariant shift % 7 == 0 && shift / 7 <= |s| && shift <= 35 && reader.Rest() == s[shift / 7..]
        invariant PreambleAt(s, shift / 7, result)
        decreases 35 - shift
      {
        if shift >= 32 {
          NoSixthByte(s, result);
          return false, 0;
        }
        var done;
        done, ok, result := LengthByte(s, shift, result);
        if done {
          return;
        }
        shift := shift + 7;
      }
    }

    method LengthByte(ghost s: seq<Byte>, shift: nat, sum: nat) returns (done: bool, ok: bool, result: nat)
      requires Valid() && ip == limit == peeked == 0 && shift in {0, 7, 14, 21, 28}
      requires shift / 7 <= |s| && reader.Rest() == s[shift / 7..] && PreambleAt(s, shift / 7, sum)
      modifies reader
      ensures Valid()
      ensures !done ==> shift / 7 < |s| && reader.Rest() == s[shift / 7 + 1..] && PreambleAt(s, shift / 7 + 1, result)
      ensures done ==> ok == Preamble(s, 0).Some?
      ensures done && ok ==> Preamble(s, 0) == Some(Header(result, shift / 7 + 1)) && Rest() == s[shift / 7 + 1..]
    {
      hide Preamble, PreambleAt;
      var region := reader.Peek();
      if |region| == 0 {
        NoNextByte(s, shift / 7, sum);
        return true, false, 0;
      }
      reader.Skip(1);
      done, ok, result := AddDigit(s, region[0], shift, sum);
    }

    /** Takes the next region from the reader, once the current one is used up. */
    method NextRegion()
      requires Valid()
      modifies this, reader
      ensures Valid() && eof == old(eof) && Rest() == old(reader.Rest()[peeked..])
      ensures ip == 0 && limit == |buf| == peeked && (limit == 0 ==> Rest() == [])
      ensures reader.Available() == old(reader.Available() - peeked)
    {
      reader.Skip(peeked);
      Show();
    }

    method Show()
      requires reader.Valid() && |reader.data| < 0x1_0000_0000 && |scratch| == MAX_TAG
      modifies this
      ensures Valid() && eof == old(eof) && Rest() == reader.Rest()
      ensures ip == 0 && limit == |buf| == peeked && (limit == 0 ==> Rest() == [])
    {
      hide Narrowed;
      var region := reader.Peek();
      Shown(region, reader.Rest());
      peeked := Narrowed(|region|);
      buf, ip, limit := region, 0, |region|;
    }

    /** Puts the front of the window into scratch_ and gives everything peeked back. */
    method MoveToScratch() returns (nbuf: nat)
      requires Valid() && limit - ip <= MAX_TAG
      modifies this, reader
      ensures Valid() && eof == old(eof) && peeked == 0 && nbuf == old(limit - ip) && buf == old(buf)
      ensures ip == old(ip) && limit == old(limit)
      ensures scratch[..nbuf] == old(buf[ip..limit]) && scratch[..nbuf] + reader.Rest() == old(Rest())
    {
      nbuf := limit - ip;
      scratch := buf[ip..limit] + scratch[nbuf..];
      reader.Skip(peeked);
      peeked := 0;
    }

    /** Fills scratch_ up to the needed bytes, however small the reader's pieces are. */
    method Stitch(nbuf0: nat, needed: nat, ghost rest: seq<Byte>) returns (ok: bool)
      requires Valid() && nbuf0 <= needed <= MAX_TAG && peeked == 0 && scratch[..nbuf0] + reader.Rest() == rest
      modifies this`scratch, reader
      ensures Valid() && ok == (needed <= |rest|)
      ensures ok ==> scratch[..needed] + reader.Rest() == rest
    {
      var nbuf := nbuf0;
      while nbuf < needed
        invariant Valid() && nbuf <= needed && scratch[..nbuf] + reader.Rest() == rest
      {
        var src := reader.Peek();
        if |src| == 0 {
          assert |rest| == nbuf;
          return false;
        }
        var toAdd := if needed - nbuf < |src| then needed - nbuf else |src|;
        Stitched(scratch, nbuf, src, toAdd, reader.Rest());
        scratch := scratch[..nbuf] + src[..toAdd] + scratch[nbuf + toAdd..];
        nbuf := nbuf + toAdd;
        reader.Skip(toAdd);
      }
      return true;
    }

    /** RefillTag: makes the next tag readable in one piece. */
    method RefillTag() returns (ok: bool)
      requires Valid() && !eof
      modifies this, reader
      ensures Valid()
      ensures ok ==> !eof && Ready() && Rest() == old(Rest())
      ensures !ok ==> Exhausted(old(Rest()), eof)
    {
      if ip == limit {
        EmptyWindow(buf, ip, reader.Rest()[peeked..]);
        NextRegion();
        eof := limit == 0;
        if eof {
          return false;
        }
      }
      ok := WholeTag();
    }

    method WholeTag() returns (ok: bool)
      requires Valid() && !eof && ip < limit
      modifies this, reader
      ensures Valid() && !eof
      ensures ok ==> Ready() && Rest() == old(Rest())
      ensures !ok ==> |old(Rest())| < TagBytes(old(Rest())[0])
    {
      ghost var rest := Rest();
      var entry := LookUp(buf[ip]);
      EntryFields(buf[ip]);
      var needed := entry / 2048 + 1;
      var nbuf := limit - ip;
      if nbuf < needed {
        nbuf := MoveToScratch();
        ok := Stitch(nbuf, needed, rest);
        if !ok {
          return;
        }
        assert scratch[0] == (scratch[..needed] + reader.Rest())[0] == rest[0];
        buf, ip, limit := scratch, 0, needed;
      } else if nbuf < MAX_TAG {
        nbuf := MoveToScratch();
        assert scratch[0] == scratch[..nbuf][0] == old(buf[ip..limit])[0];
        buf, ip, limit := scratch, 0, nbuf;
        ok := true;
      } else {
        ok := true;
      }
    }

    /** Nothing the decoder changes belongs to the writer. */
    ghost predicate Apart(w: Writer)
      reads w.Root()
    {
      {this, reader} !! {w.Root()} + w.Parts() + w.Repr()
    }

    /** In front of a tag: what is left decodes to target, given the output so far. */
    ghost predicate AtTag(w: Writer, target: Option<seq<Byte>>)
      reads this, reader, w.Root(), w.Parts()
    {
      Valid() && !eof && w.Valid() && target == Decode32(Rest(), w.Contents())
    }

    /** The run is over: with everything decoded, or with a reason to refuse. */
    ghost predicate Finished(w: Writer, target: Option<seq<Byte>>)
      reads this, reader, w.Root(), w.Parts()
    {
      if eof then w.Valid() && target == Some(w.Contents()) else Refused(target, w.Expected())
    }

    /** MAYBE_REFILL. */
    method MaybeRefill(w: Writer, ghost target: Option<seq<Byte>>) returns (more: bool)
      requires AtTag(w, target) && Apart(w)
      modifies this, reader
      ensures Valid() && (more ==> AtTag(w, target) && Ready() && Rest() == old(Rest()))
      ensures !more ==> Finished(w, target)
    {
      hide Decode32;
      if limit - ip < MAX_TAG {
        ghost var rest, out := Rest(), w.Contents();
        more := RefillTag();
        if !more {
          NoMoreTags(rest, out, eof);
        }
      } else {
        more := true;
      }
    }

    /** A copy tag. */
    method CopyTag(w: Writer, ghost target: Option<seq<Byte>>) returns (more: bool)
      requires AtTag(w, target) && Apart(w) && Ready() && buf[ip] % 4 != 0
      modifies this, reader, w.Repr()
      ensures Valid() && w.Expected() == old(w.Expected()) && fresh(w.Repr() - old(w.Repr()))
      ensures more ==> AtTag(w, target) && Apart(w) && Ready() && |Rest()| < |old(Rest())|
      ensures !more ==> Finished(w, target)
    {
      hide Decode32, CopyFrom, Writer.Valid, Writer.Contents, Writer.Expected;
      ghost var rest, out := Rest(), w.Contents();
      var offset, length := CopyFields();
      CopyStep(rest, out);
      var ok := w.AppendFromSelf(offset, length);
      if !ok {
        CopyRefused(rest, out, w.Expected());
        return false;
      }
      w.Covered();
      more := MaybeRefill(w, target);
    }

    /** Takes offset and length from the table entry and the bytes behind the opcode. */
    method CopyFields() returns (offset: nat, length: nat)
      requires Valid() && Ready() && buf[ip] % 4 != 0
      modifies this`ip
      ensures Valid() && old(Rest()) != [] && old(Rest())[0] == old(buf[ip])
      ensures Rest() == old(Rest())[TagBytes(old(Rest())[0])..]
      ensures offset == CopyOffset(old(Rest())) && length == CopyLength(old(Rest())[0]) <= 64
    {
      ghost var rest := Rest();
      var c := buf[ip];
      EntryFields(c);
      var entry := LookUp(c);
      var trailer := LoadLow(buf, ip + 1, entry / 2048);
      InWindow(buf, ip, limit, reader.Rest()[peeked..], TagBytes(c));
      length := entry % 256;
      offset := entry / 256 % 8 * 256 + trailer;
      ip := ip + 1 + entry / 2048;
    }

    /** A literal tag: the fast path if the writer takes it, else the general one. */
    method LiteralTag(w: Writer, ghost target: Option<seq<Byte>>) returns (more: bool)
      requires AtTag(w, target) && Apart(w) && Ready() && buf[ip] % 4 == 0
      modifies this, reader, w.Repr()
      ensures Valid() && w.Expected() == old(w.Expected()) && fresh(w.Repr() - old(w.Repr()))
      ensures more ==> AtTag(w, target) && Apart(w) && Ready() && |Rest()| < |old(Rest())|
      ensures !more ==> Finished(w, target)
    {
      hide Decode32, Writer.Valid, Writer.Contents, Writer.Expected;
      more := FastLiteralTag(w, target);
      if !more {
        ghost var rest, out := Rest(), w.Contents();
        LiteralStep(rest, out);
        var literalLength := LiteralFields();
        more := LiteralData(w, literalLength, target);
      }
    }

    /** Copies a short literal if the writer has room for sixteen bytes and the window
        for a tag behind them. */
    method FastLiteralTag(w: Writer, ghost target: Option<seq<Byte>>) returns (ok: bool)
      requires AtTag(w, target) && Apart(w) && Ready() && buf[ip] % 4 == 0
      modifies this`ip, w.Repr()
      ensures AtTag(w, target) && Apart(w) && Ready()
      ensures w.Expected() == old(w.Expected()) && fresh(w.Repr() - old(w.Repr()))
      ensures ok ==> |Rest()| < |old(Rest())|
      ensures !ok ==> ip == old(ip) && w.Contents() == old(w.Contents())
    {
      hide Decode32, Writer.Valid, Writer.Contents, Writer.Expected;
      ghost var rest, out := Rest(), w.Contents();
      var literalLength := buf[ip] / 4 + 1;
      ok := w.TryFastAppend(buf[ip + 1..limit], literalLength);
      w.Covered();
      if ok {
        FastLiteral(buf, ip, limit, reader.Rest()[peeked..], literalLength, out);
        ip := ip + 1 + literalLength;
      }
    }

    method LiteralFields() returns (literalLength: nat)
      requires Valid() && Ready() && buf[ip] % 4 == 0
      modifies this`ip
      ensures Valid() && old(Rest()) != [] && old(Rest())[0] == old(buf[ip])
      ensures Rest() == old(Rest())[TagBytes(old(Rest())[0])..]
      ensures literalLength == LiteralLength(old(Rest()))
    {
      InWindow(buf, ip, limit, reader.Rest()[peeked..], TagBytes(buf[ip]));
      literalLength := buf[ip] / 4 + 1;
      ip := ip + 1;
      if literalLength >= 61 {
        var literalLengthLength := literalLength - 60;
        var low := LoadLow(buf, ip, literalLengthLength);
        literalLength := (low + 1) % 0x1_0000_0000;
        ip := ip + literalLengthLength;
      }
    }

    /** The bytes of a literal, across as many regions as it takes. */
    method LiteralData(w: Writer, len0: nat, ghost target: Option<seq<Byte>>) returns (more: bool)
      requires Valid() && !eof && w.Valid() && Apart(w) && LiteralAhead(target, Rest(), w.Contents(), len0)
      modifies this, reader, w.Repr()
      ensures Valid() && w.Expected() == old(w.Expected()) && fresh(w.Repr() - old(w.Repr()))
      ensures more ==> AtTag(w, target) && Apart(w) && Ready() && |Rest()| <= |old(Rest())|
      ensures !more ==> Finished(w, target)
    {
      hide Decode32, LiteralAhead, Writer.Valid, Writer.Contents;
      var len: nat := len0;
      var ok;
      while limit - ip < len
        invariant Valid() && !eof && w.Valid() && Apart(w) && LiteralAhead(target, Rest(), w.Contents(), len)
        invariant w.Expected() == old(w.Expected()) && fresh(w.Repr() - old(w.Repr()))
        invariant |Rest()| <= |old(Rest())|
        decreases reader.Available() - peeked
      {
        ok, len := LiteralRegion(w, len, target);
        if !ok {
          return false;
        }
      }
      ok := TakeLiteral(w, len, len, target);
      if !ok {
        return false;
      }
      LiteralDone(target, Rest(), w.Contents());
      more := MaybeRefill(w, target);
    }

    /** The rest of a region, all of it literal, and on to the next one. */
    method LiteralRegion(w: Writer, len0: nat, ghost target: Option<seq<Byte>>) returns (ok: bool, len: nat)
      requires Valid() && !eof && w.Valid() && Apart(w) && LiteralAhead(target, Rest(), w.Contents(), len0)
      requires limit - ip < len0
      modifies this, reader, w.Repr()
      ensures Valid() && w.Expected() == old(w.Expected()) && fresh(w.Repr() - old(w.Repr()))
      ensures ok ==> !eof && w.Valid() && Apart(w) && LiteralAhead(target, Rest(), w.Contents(), len)
      ensures ok ==> |Rest()| <= |old(Rest())| && reader.Available() - peeked < old(reader.Available() - peeked)
      ensures !ok ==> Finished(w, target)
    {
      hide Decode32, LiteralAhead, Writer.Valid, Writer.Contents;
      var avail := limit - ip;
      len := len0;
      ok := TakeLiteral(w, avail, len, target);
      if !ok {
        return;
      }
      len := len - avail;
      EmptyWindow(buf, ip, reader.Rest()[peeked..]);
      NextRegion();
      if limit == 0 {
        LiteralCutOff(target, w.Contents(), len);
        ok := false;
      }
    }

    /** Appends the next n bytes of the window. */
    method TakeLiteral(w: Writer, n: nat, ghost len: nat, ghost target: Option<seq<Byte>>) returns (ok: bool)
      requires Valid() && !eof && w.Valid() && Apart(w) && n <= len && n <= limit - ip
      requires n == limit - ip || n == len
      requires LiteralAhead(target, Rest(), w.Contents(), len)
      modifies this`ip, w.Repr()
      ensures Valid() && w.Expected() == old(w.Expected()) && fresh(w.Repr() - old(w.Repr()))
      ensures ok ==> w.Valid() && Apart(w) && LiteralAhead(target, Rest(), w.Contents(), len - n) && ip == old(ip) + n
      ensures !ok ==> Finished(w, target)
    {
      hide Decode32, LiteralAhead;
      ghost var rest, out := Rest(), w.Contents();
      LiteralAdvance(target, rest, out, len, n);
      Window(buf, ip, limit, reader.Rest()[peeked..], n);
      ok := w.Append(buf[ip..ip + n]);
      if !ok {
        LiteralOverflow(target, rest, out, len, w.Expected());
        return;
      }
      w.Covered();
      ip := ip + n;
    }

    /** The loop over all tags.  Whatever the writer and however the reader cuts its
        input: at a clean end everything has been decoded, at any other the stream is
        malformed or too long. */
    method DecompressAllTags(w: Writer)
      requires Valid() && !eof && w.Valid() && Apart(w)
      modifies this, reader, w.Repr()
      ensures Valid() && w.Expected() == old(w.Expected()) && fresh(w.Repr() - old(w.Repr()))
      ensures Finished(w, old(Decode32(Rest(), w.Contents())))
    {
      hide Decode32;
      ghost var target := Decode32(Rest(), w.Contents());
      var more := MaybeRefill(w, target);
      while more
        invariant Valid() && w.Expected() == old(w.Expected()) && fresh(w.Repr() - old(w.Repr()))
        invariant more ==> AtTag(w, target) && Apart(w) && Ready()
        invariant !more ==> Finished(w, target)
        decreases if more then |Rest()| + 1 else 0
      {
        if buf[ip] % 4 == 0 {
          more := LiteralTag(w, target);
        } else {
          more := CopyTag(w, target);
        }
      }
    }
  }

  /** InternalUncompressAllTags: accepts exactly when the tags decode to the announced
      number of bytes, and then the writer holds them. */
  method UncompressAllTags(d: Decompressor, w: Writer, uncompressedLen: nat) returns (ok: bool)
    requires d.Valid() && !d.eof && w.Valid() && w.Unused(uncompressedLen) && d.Apart(w)
    modifies d, d.reader, w.Repr()
    ensures d.Valid() && fresh(w.Repr() - old(w.Repr()))
    ensures ok == old(Complete(Decode32(d.Rest(), []), uncompressedLen))
    ensures ok ==> w.Valid() && Some(w.Contents()) == old(Decode32(d.Rest(), []))
  {
    hide Decode32;
    w.SetExpectedLength(uncompressedLen);
    d.DecompressAllTags(w);
    if !d.eof {
      return false;
    }
    ok := w.CheckLength();
  }

  predicate Complete(target: Option<seq<Byte>>, len: nat) {
    target.Some? && |target.value| == len
  }

  /** InternalUncompress.  For every source, every way it splits its data and every
      writer: success exactly on the streams the format accepts, with exactly the bytes
      the format gives them. */
  method InternalUncompress(reader: Source, w: Writer) returns (ok: bool)
    requires reader.Valid() && |reader.data| < 0x1_0000_0000
    requires w.Valid() && reader !in {w.Root()} + w.Parts() + w.Repr()
    requires Preamble(reader.Rest(), 0).Some? ==> w.Unused(Preamble(reader.Rest(), 0).value.length)
    modifies reader, w.Repr()
    ensures reader.Valid()
    ensures Verdict(old(reader.Rest()), ok)
    ensures ok ==> w.Valid() && Delivered(old(reader.Rest()), w.Contents())
  {
    hide Decode32, Preamble;
    var d := new Decompressor(reader);
    var uncompressedLen;
    ok, uncompressedLen := d.ReadUncompressedLength();
    if ok {
      ok := UncompressAllTags(d, w, uncompressedLen);
    }
    reader.Skip(d.peeked);
    StreamDiffers(old(reader.Rest()));
  }

  // ----- The entry points ------------------------------------------------------------

  /** RawUncompress into a flat array that is large enough. */
  method RawUncompress(reader: Source, dst: array<Byte>, ssse3: bool) returns (ok: bool)
    requires reader.Valid() && |reader.data| < 0x1_0000_0000
    requires Preamble(reader.Rest(), 0).Some? ==> Preamble(reader.Rest(), 0).value.length <= dst.Length
    modifies reader, dst
    ensures reader.Valid() && Verdict(old(reader.Rest()), ok)
    ensures ok ==> Announced(old(reader.Rest())) <= dst.Length
    ensures ok ==> Delivered(old(reader.Rest()), dst[..Announced(old(reader.Rest()))])
  {
    hide Decode32, Preamble;
    var w := new ArrayWriter(dst, ssse3);
    ok := InternalUncompress(reader, ToArray(w));
    if ok {
      StreamLength(old(reader.Rest()), w.Contents());
    }
  }

  /** IsValidCompressed: the verdict alone. */
  method IsValidCompressed(reader: Source) returns (ok: bool)
    requires reader.Valid() && |reader.data| < 0x1_0000_0000
    modifies reader
    ensures reader.Valid() && Verdict(old(reader.Rest()), ok)
  {
    hide Verdict, Delivered, Preamble;
    var w := new Validator();
    ok := InternalUncompress(reader, ToNowhere(w));
  }

  /** Uncompress into a sink that has no flat buffer to offer. */
  method UncompressToBlocks(reader: Source, ssse3: bool) returns (ok: bool, out: ScatteredWriter)
    requires reader.Valid() && |reader.data| < 0x1_0000_0000
    modifies reader
    ensures reader.Valid() && Verdict(old(reader.Rest()), ok)
    ensures ok ==> out.Valid() && Delivered(old(reader.Rest()), out.Contents())
  {
    hide Verdict, Delivered, Preamble;
    out := new ScatteredWriter(ssse3);
    ok := InternalUncompress(reader, ToBlocks(out));
  }

  /** RawUncompressToIOVec, into buffers that together have room. */
  method RawUncompressToIOVec(reader: Source, iov: seq<array<Byte>>, ssse3: bool) returns (ok: bool, out: IOVecWriter)
    requires reader.Valid() && |reader.data| < 0x1_0000_0000
    requires forall i, j :: 0 <= i < j < |iov| ==> iov[i] != iov[j]
    requires Preamble(reader.Rest(), 0).Some? ==> Preamble(reader.Rest(), 0).value.length <= Start(iov, |iov|)
    modifies reader, iov
    ensures reader.Valid() && Verdict(old(reader.Rest()), ok) && out.iov == iov
    ensures ok ==> out.Valid() && Delivered(old(reader.Rest()), out.Contents())
  {
    hide Verdict, Delivered, Preamble;
    out := new IOVecWriter(iov, ssse3);
    ok := InternalUncompress(reader, ToIOVec(out));
  }

  /** GetUncompressedLength. */
  method GetUncompressedLength(reader: Source) returns (ok: bool, length: nat)
    requires reader.Valid() && |reader.data| < 0x1_0000_0000
    modifies reader
    ensures reader.Valid() && ok == Preamble(old(reader.Rest()), 0).Some?
    ensures ok ==> length == Preamble(old(reader.Rest()), 0).value.length
  {
    hide Preamble;
    var d := new Decompressor(reader);
    ok, length := d.ReadUncompressedLength();
  }

  /** Uncompress into a string: read the length, make room, start over. */
  method Uncompress(reader: Source, ssse3: bool) returns (ok: bool, out: seq<Byte>)
    requires reader.Valid() && reader.pos == 0 && |reader.data| < 0x1_0000_0000
    modifies reader
    ensures Verdict(reader.data, ok) && (ok ==> Delivered(reader.data, out))
  {
    hide Decode32, Preamble;
    assert reader.Rest() == reader.data;
    var length;
    ok, length := GetUncompressedLength(reader);
    if !ok {
      NoPreamble(reader.data);
      return false, [];
    }
    var dst := new Byte[length](_ => 0);
    reader.Reset();
    assert reader.Rest() == reader.data;
    ok := RawUncompress(reader, dst, ssse3);
    out := dst[..length];
  }

  /** The length a stream announces. */
  function Announced(s: seq<Byte>): nat {
    match Preamble(s, 0)
    case None => 0
    case Some(header) => header.length
  }

  lemma StreamLength(s: seq<Byte>, out: seq<Byte>)
    requires Delivered(s, out)
    ensures |out| == Announced(s)
  {}

  lemma NoPreamble(s: seq<Byte>)
    requires Preamble(s, 0).None?
    ensures Verdict(s, false)
  {}
}

module SnappyRoundTrip {
  import opened Basics
  import opened SnappyFormat
  import opened SnappySource
  import opened SnappyCompress
  import opened SnappyDecompress
  import opened SnappyWriters
  import opened SnappyIOVec

  /** Decompressing what Compress has written succeeds and gives the input back, for
      every input below the 32-bit limit, however the two sources cut their bytes. */
  method RoundTrip(input: Source, ssse3: bool) returns (ok: bool, out: seq<Byte>)
    requires input.Valid() && MaxCompressedLength(input.Available()) < 0x1_0000_0000
    modifies input
    ensures ok && out == old(input.Rest())
  {
    hide DecodeStream, DecodeStream32, WronglyAccepted;
    var dst, written := Compress(input);
    var compressed := new Source(dst[..written]);
    ok, out := Uncompress(compressed, ssse3);
  }

  /** Two sources with the same bytes are compressed to the same bytes, however differently
      they hand them out. */
  method SameOutput(a: Source, b: Source) returns (x: seq<Byte>, y: seq<Byte>)
    requires a.Valid() && b.Valid() && a != b && a.Rest() == b.Rest()
    modifies a, b
    ensures x == y
  {
    hide DecodeStream;
    var dst, n := Compress(a);
    x := dst[..n];
    dst, n := Compress(b);
    y := dst[..n];
  }

  /** Each way to decompress a string of bytes, from a source of its own. */
  method Validate(s: seq<Byte>) returns (ok: bool)
    requires |s| < 0x1_0000_0000
    ensures Verdict(s, ok)
  {
    hide Verdict, Delivered;
    var source := new Source(s);
    assert source.Rest() == s;
    ok := IsValidCompressed(source);
  }

  method ToString(s: seq<Byte>, ssse3: bool) returns (ok: bool, out: seq<Byte>)
    requires |s| < 0x1_0000_0000
    ensures Verdict(s, ok)
    ensures ok ==> Delivered(s, out)
  {
    hide Verdict, Delivered;
    var source := new Source(s);
    ok, out := Uncompress(source, ssse3);
  }

  method ToScattered(s: seq<Byte>, ssse3: bool) returns (ok: bool, out: ScatteredWriter)
    requires |s| < 0x1_0000_0000
    ensures Verdict(s, ok)
    ensures ok ==> out.Valid() && Delivered(s, out.Contents())
  {
    hide Verdict, Delivered, ScatteredWriter.Valid, ScatteredWriter.Contents;
    var source := new Source(s);
    assert source.Rest() == s;
    ok, out := UncompressToBlocks(source, ssse3);
  }

  method ToBuffers(s: seq<Byte>, iov: seq<array<Byte>>, ssse3: bool) returns (ok: bool, out: IOVecWriter)
    requires |s| < 0x1_0000_0000
    requires forall i, j :: 0 <= i < j < |iov| ==> iov[i] != iov[j]
    requires Preamble(s, 0).Some? ==> Preamble(s, 0).value.length <= Start(iov, |iov|)
    modifies iov
    ensures Verdict(s, ok) && out.iov == iov
    ensures ok ==> out.Valid() && Delivered(s, out.Contents())
  {
    hide Verdict, Delivered, Preamble, Start, IOVecWriter.Valid, IOVecWriter.Contents;
    var source := new Source(s);
    assert source.Rest() == s;
    ok, out := RawUncompressToIOVec(source, iov, ssse3);
  }

  /** All four writers give one verdict on a stream, and those that keep the data keep
      the same bytes. */
  method AllWritersAgree(s: seq<Byte>, iov: seq<array<Byte>>, ssse3: bool)
    returns (valid: bool, flat: bool, whole: seq<Byte>, blocks: bool, scattered: ScatteredWriter,
             vec: bool, gathered: IOVecWriter)
    requires |s| < 0x1_0000_0000
    requires forall i, j :: 0 <= i < j < |iov| ==> iov[i] != iov[j]
    requires Preamble(s, 0).Some? ==> Preamble(s, 0).value.length <= Start(iov, |iov|)
    modifies iov
    ensures Verdict(s, valid) && valid == flat == blocks == vec
    ensures gathered.iov == iov
    ensures valid ==> scattered.Valid() && gathered.Valid()
    ensures valid ==> Delivered(s, whole) && whole == scattered.Contents() == gathered.Contents()
  {
    hide DecodeStream, DecodeStream32, WronglyAccepted, Preamble, Start;
    hide IOVecWriter.Valid, IOVecWriter.Contents, ScatteredWriter.Valid, ScatteredWriter.Contents;
    valid := Validate(s);
    flat, whole := ToString(s, ssse3);
    vec, gathered := ToBuffers(s, iov, ssse3);
    blocks, scattered := ToScattered(s, ssse3);
  }
}
