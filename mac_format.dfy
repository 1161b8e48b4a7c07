/** Rendering the board's MAC address as the text stored in the registry:
    six bytes printed with "%02X" each into a 13-character wide-string buffer. */
module MacFormat {
  import opened NtStatus

  /** A UCHAR. */
  type Byte = x: int | 0 <= x < 256

  const MacLength := 6

  /** The MACAddress field of the reply: exactly six bytes. */
  type MacBytes = s: seq<Byte> | |s| == MacLength witness [0, 0, 0, 0, 0, 0]

  /** ARRAYSIZE(macAddrStr): twelve digits and the terminating NUL. */
  const MacStringCapacity := 13

  const Nul: char := 0 as char

  predicate IsUpperHexDigit(c: char) {
    '0' <= c <= '9' || 'A' <= c <= 'F'
  }

  predicate IsUpperHex(s: seq<char>) {
    forall i :: 0 <= i < |s| ==> IsUpperHexDigit(s[i])
  }

  /** One uppercase hexadecimal digit, as "%X" prints it. */
  function HexDigit(n: nat): (c: char)
    requires n < 16
    ensures IsUpperHexDigit(c)
    ensures n < 10 ==> c as int - '0' as int == n
    ensures 10 <= n ==> c as int - 'A' as int == n - 10
  {
    if n < 10 then ('0' as int + n) as char else ('A' as int + n - 10) as char
  }

  /** The value of an uppercase hexadecimal digit. */
  function DigitValue(c: char): (n: nat)
    requires IsUpperHexDigit(c)
    ensures n < 16
  {
    if c <= '9' then c as int - '0' as int else c as int - 'A' as int + 10
  }

  lemma DigitRoundTrip(n: nat, c: char)
    requires n < 16
    requires IsUpperHexDigit(c)
    ensures DigitValue(HexDigit(n)) == n
    ensures HexDigit(DigitValue(c)) == c
  {
  }

  /** "%02X" of one byte: the high digit, then the low digit. */
  function HexByte(b: Byte): (s: seq<char>)
    ensures |s| == 2 && IsUpperHex(s)
    ensures DigitValue(s[0]) * 16 + DigitValue(s[1]) == b
  {
    DigitRoundTrip(b / 16, '0');
    DigitRoundTrip(b % 16, '0');
    [HexDigit(b / 16), HexDigit(b % 16)]
  }

  /** The bytes printed back to back with "%02X" each, in byte order. */
  function FormatHex(bytes: seq<Byte>): (s: seq<char>)
    ensures |s| == 2 * |bytes|
    ensures IsUpperHex(s)
  {
    if |bytes| == 0 then [] else HexByte(bytes[0]) + FormatHex(bytes[1..])
  }

  /** Characters 2i and 2i+1 of the text are the two digits of byte i. */
  lemma {:induction false} FormatHexAt(bytes: seq<Byte>, i: nat)
    requires i < |bytes|
    ensures FormatHex(bytes)[2 * i] == HexDigit(bytes[i] / 16)
    ensures FormatHex(bytes)[2 * i + 1] == HexDigit(bytes[i] % 16)
  {
    if i > 0 {
      FormatHexAt(bytes[1..], i - 1);
    }
  }

  /** Reads a run of uppercase hexadecimal digit pairs back into bytes. */
  function ParseHex(s: seq<char>): (bytes: seq<Byte>)
    requires |s| % 2 == 0 && IsUpperHex(s)
    ensures 2 * |bytes| == |s|
  {
    if |s| == 0 then []
    else [DigitValue(s[0]) * 16 + DigitValue(s[1])] + ParseHex(s[2..])
  }

  /** Formatting loses nothing: the text determines the bytes. */
  lemma {:induction false} ParseFormatHex(bytes: seq<Byte>)
    ensures ParseHex(FormatHex(bytes)) == bytes
  {
    if |bytes| > 0 {
      var b := bytes[0];
      DigitRoundTrip(b / 16, '0');
      DigitRoundTrip(b % 16, '0');
      assert FormatHex(bytes)[2..] == FormatHex(bytes[1..]);
      ParseFormatHex(bytes[1..]);
    }
  }

  /** Every even-length uppercase hexadecimal text is the rendering of some bytes. */
  lemma {:induction false} FormatParseHex(s: seq<char>)
    requires |s| % 2 == 0 && IsUpperHex(s)
    ensures FormatHex(ParseHex(s)) == s
  {
    if |s| > 0 {
      var hi, lo := DigitValue(s[0]), DigitValue(s[1]);
      assert (hi * 16 + lo) / 16 == hi && (hi * 16 + lo) % 16 == lo;
      DigitRoundTrip(0, s[0]);
      DigitRoundTrip(0, s[1]);
      FormatParseHex(s[2..]);
    }
  }

  /** The outcome of RtlStringCchPrintfW: its status and the destination buffer afterwards. */
  datatype Printed = Printed(status: Status, buffer: seq<char>)

  /** Prints `text` into a zero-initialised buffer of `capacity` characters,
      truncating and reporting overflow when the text and its NUL do not fit. */
  function PrintToBuffer(text: seq<char>, capacity: nat): (p: Printed)
    requires capacity > 0
    ensures |p.buffer| == capacity
    ensures NtSuccess(p.status) <==> |text| < capacity
    ensures NtSuccess(p.status) ==> p.buffer[..|text|] == text
    ensures forall i :: |text| <= i < capacity ==> p.buffer[i] == Nul
    ensures p.buffer[capacity - 1] == Nul
  {
    if |text| < capacity then Printed(StatusSuccess, text + seq(capacity - |text|, _ => Nul))
    else Printed(StatusBufferOverflow, text[..capacity - 1] + [Nul])
  }

  /** The registry text for a MAC address: twelve uppercase digits, two per
      byte in byte order, followed by a NUL, filling the 13-character buffer. */
  function PrintMac(mac: MacBytes): (p: Printed)
    ensures NtSuccess(p.status)
    ensures |p.buffer| == MacStringCapacity
    ensures p.buffer[..2 * MacLength] == FormatHex(mac)
    ensures IsUpperHex(p.buffer[..2 * MacLength])
    ensures p.buffer[2 * MacLength] == Nul
    ensures ParseHex(p.buffer[..2 * MacLength]) == mac
  {
    ParseFormatHex(mac);
    PrintToBuffer(FormatHex(mac), MacStringCapacity)
  }

  /** The reply AA:BB:CC:DD:EE:FF is stored as "AABBCCDDEEFF". */
  lemma PrintMacExample()
    ensures PrintMac([0xAA, 0xBB, 0xCC, 0xDD, 0xEE, 0xFF]).buffer[..12] == "AABBCCDDEEFF"
  {
  }
}
