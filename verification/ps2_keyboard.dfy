/** The PS/2 keyboard decoder: a byte-driven machine whose state survives calls that run
    out of bytes. */
module Ps2Keyboard {
  type Byte = x: int | 0 <= x < 256

  const LONG: Byte := 0xE0
  const BREAK: Byte := 0xF0

  // ----------------------------------------------------------------------- tables

  const SCAN_CODE_NUM := 102

  /** The table single_byte_make_code; 0 for a key that has none. */
  function MakeCode(key: int): Byte {
    match key
    case 0 => 0x1C case 1 => 0x32 case 2 => 0x21 case 3 => 0x23 case 4 => 0x24 case 5 => 0x2B
    case 6 => 0x34 case 7 => 0x33 case 8 => 0x43 case 9 => 0x3B case 10 => 0x42 case 11 => 0x4B
    case 12 => 0x3A case 13 => 0x31 case 14 => 0x44 case 15 => 0x4D case 16 => 0x15 case 17 => 0x2D
    case 18 => 0x1B case 19 => 0x2C case 20 => 0x3C case 21 => 0x2A case 22 => 0x1D case 23 => 0x22
    case 24 => 0x35 case 25 => 0x1A case 26 => 0x45 case 27 => 0x16 case 28 => 0x1E case 29 => 0x26
    case 30 => 0x25 case 31 => 0x2E case 32 => 0x36 case 33 => 0x3D case 34 => 0x3E case 35 => 0x46
    case 36 => 0x0E case 37 => 0x4E case 38 => 0x55 case 39 => 0x5D case 40 => 0x66 case 41 => 0x29
    case 42 => 0x0D case 43 => 0x58 case 44 => 0x12 case 45 => 0x14 case 47 => 0x11 case 48 => 0x59
    case 53 => 0x5A case 54 => 0x76 case 55 => 0x05 case 56 => 0x06 case 57 => 0x04 case 58 => 0x0C
    case 59 => 0x03 case 60 => 0x0B case 61 => 0x83 case 62 => 0x0A case 63 => 0x01 case 64 => 0x09
    case 65 => 0x78 case 66 => 0x07 case 67 => 0x7E case 68 => 0x54 case 79 => 0x77 case 81 => 0x7C
    case 82 => 0x7B case 83 => 0x79 case 85 => 0x71 case 86 => 0x70 case 87 => 0x69 case 88 => 0x72
    case 89 => 0x7A case 90 => 0x6B case 91 => 0x73 case 92 => 0x74 case 93 => 0x6C case 94 => 0x75
    case 95 => 0x7D case 96 => 0x5B case 97 => 0x4C case 98 => 0x52 case 99 => 0x41 case 100 => 0x49
    case 101 => 0x4A
    case _ => 0
  }

  /** The table ascii_codes; 0 for a key that has none. */
  function AsciiCode(key: int): Byte {
    match key
    case 0 => 65 case 1 => 66 case 2 => 67 case 3 => 68 case 4 => 69 case 5 => 70 case 6 => 71
    case 7 => 72 case 8 => 73 case 9 => 74 case 10 => 75 case 11 => 76 case 12 => 77 case 13 => 78
    case 14 => 79 case 15 => 80 case 16 => 81 case 17 => 82 case 18 => 83 case 19 => 84 case 20 => 85
    case 21 => 86 case 22 => 87 case 23 => 88 case 24 => 89 case 25 => 90 case 26 => 48 case 27 => 49
    case 28 => 50 case 29 => 51 case 30 => 52 case 31 => 53 case 32 => 54 case 33 => 55 case 34 => 56
    case 35 => 57 case 36 => 96 case 37 => 45 case 38 => 61 case 40 => 8 case 42 => 9 case 53 => 10
    case 54 => 27 case 68 => 91 case 72 => 127 case 80 => 47 case 81 => 42 case 82 => 45 case 83 => 43
    case 84 => 10 case 85 => 46 case 86 => 48 case 87 => 49 case 88 => 50 case 89 => 51 case 90 => 52
    case 91 => 53 case 92 => 54 case 93 => 55 case 94 => 56 case 95 => 57 case 96 => 93 case 97 => 59
    case 98 => 39 case 99 => 44 case 100 => 46 case 101 => 47
    case _ => 0
  }

  /** Letters, digits, and the other characters of the table. */
  lemma LettersAndDigits(key: nat)
    ensures key < 26 ==> AsciiCode(key) == 'A' as int + key
    ensures 26 <= key < 36 ==> AsciiCode(key) == '0' as int + (key - 26)
    ensures 86 <= key < 96 ==> AsciiCode(key) == '0' as int + (key - 86)
  {
  }

  lemma Signs()
    ensures AsciiCode(36) == '`' as int && AsciiCode(37) == '-' as int && AsciiCode(38) == '=' as int
    ensures AsciiCode(68) == '[' as int && AsciiCode(96) == ']' as int
  {
  }

  lemma Punctuation()
    ensures AsciiCode(97) == ';' as int && AsciiCode(98) == '\'' as int && AsciiCode(99) == ',' as int
    ensures AsciiCode(100) == '.' as int && AsciiCode(101) == '/' as int
  {
  }

  lemma KeypadSigns()
    ensures AsciiCode(80) == '/' as int && AsciiCode(81) == '*' as int && AsciiCode(82) == '-' as int
    ensures AsciiCode(83) == '+' as int && AsciiCode(85) == '.' as int
  {
  }

  /** Backspace, tab, both enters, escape and delete. */
  lemma Controls()
    ensures AsciiCode(40) == 0x08 && AsciiCode(42) == 0x09 && AsciiCode(53) == 0x0A && AsciiCode(84) == 0x0A
    ensures AsciiCode(54) == 0x1B && AsciiCode(72) == 0x7F
  {
  }

  /** And no other key has a character. */
  lemma NoCharacter(key: nat)
    requires key == 39 || key == 41 || (43 <= key < 72 && key !in {53, 54, 68}) || 73 <= key < 80 || key >= 102
    ensures AsciiCode(key) == 0
  {
  }

  /** The search: the first key at or after k with a make code, or SCAN_CODE_NUM. */
  function KeyFrom(code: Byte, k: nat): (key: nat)
    requires k <= SCAN_CODE_NUM
    ensures k <= key <= SCAN_CODE_NUM
    decreases SCAN_CODE_NUM - k
  {
    if k == SCAN_CODE_NUM || MakeCode(k) == code then k else KeyFrom(code, k + 1)
  }

  function KeyOf(code: Byte): nat {
    KeyFrom(code, 0)
  }

  lemma {:induction false} FirstMatch(code: Byte, k: nat)
    requires k <= SCAN_CODE_NUM
    ensures var key := KeyFrom(code, k);
            && (key < SCAN_CODE_NUM ==> MakeCode(key) == code)
            && forall j :: k <= j < key ==> MakeCode(j) != code
    decreases SCAN_CODE_NUM - k
  {
    hide MakeCode;
    if k < SCAN_CODE_NUM && MakeCode(k) != code {
      FirstMatch(code, k + 1);
    }
  }

  /** get_single_byte_make_code_index: the first key with the code, or SCAN_CODE_NUM. */
  method KeyIndex(code: Byte) returns (i: nat)
    ensures i == KeyOf(code) && i <= SCAN_CODE_NUM
    ensures i < SCAN_CODE_NUM ==> MakeCode(i) == code
    ensures forall j :: 0 <= j < i ==> MakeCode(j) != code
  {
    hide MakeCode;
    i := 0;
    while i < SCAN_CODE_NUM
      invariant 0 <= i <= SCAN_CODE_NUM && KeyOf(code) == KeyFrom(code, i)
      invariant forall j :: 0 <= j < i ==> MakeCode(j) != code
    {
      if MakeCode(i) == code {
        return;
      }
      i := i + 1;
    }
  }

  /** Where in the table a code stands: a second table, for the next lemmas only. */
  function Position(code: Byte): nat {
    match code
    case 0x01 => 63 case 0x03 => 59 case 0x04 => 57 case 0x05 => 55 case 0x06 => 56
    case 0x07 => 66 case 0x09 => 64 case 0x0A => 62 case 0x0B => 60 case 0x0C => 58 case 0x0D => 42
    case 0x0E => 36 case 0x11 => 47 case 0x12 => 44 case 0x14 => 45 case 0x15 => 16 case 0x16 => 27
    case 0x1A => 25 case 0x1B => 18 case 0x1C => 0 case 0x1D => 22 case 0x1E => 28 case 0x21 => 2
    case 0x22 => 23 case 0x23 => 3 case 0x24 => 4 case 0x25 => 30 case 0x26 => 29 case 0x29 => 41
    case 0x2A => 21 case 0x2B => 5 case 0x2C => 19 case 0x2D => 17 case 0x2E => 31 case 0x31 => 13
    case 0x32 => 1 case 0x33 => 7 case 0x34 => 6 case 0x35 => 24 case 0x36 => 32 case 0x3A => 12
    case 0x3B => 9 case 0x3C => 20 case 0x3D => 33 case 0x3E => 34 case 0x41 => 99 case 0x42 => 10
    case 0x43 => 8 case 0x44 => 14 case 0x45 => 26 case 0x46 => 35 case 0x49 => 100 case 0x4A => 101
    case 0x4B => 11 case 0x4C => 97 case 0x4D => 15 case 0x4E => 37 case 0x52 => 98 case 0x54 => 68
    case 0x55 => 38 case 0x58 => 43 case 0x59 => 48 case 0x5A => 53 case 0x5B => 96 case 0x5D => 39
    case 0x66 => 40 case 0x69 => 87 case 0x6B => 90 case 0x6C => 93 case 0x70 => 86 case 0x71 => 85
    case 0x72 => 88 case 0x73 => 91 case 0x74 => 92 case 0x75 => 94 case 0x76 => 54 case 0x77 => 79
    case 0x78 => 65 case 0x79 => 83 case 0x7A => 89 case 0x7B => 82 case 0x7C => 81 case 0x7D => 95
    case 0x7E => 67 case 0x83 => 61
    case _ => SCAN_CODE_NUM
  }

  lemma LowKeys(key: nat)
    requires key < 52 && MakeCode(key) != 0
    ensures Position(MakeCode(key)) == key
  {
  }

  lemma HighKeys(key: nat)
    requires 52 <= key && MakeCode(key) != 0
    ensures Position(MakeCode(key)) == key
  {
  }

  /** No two keys share a make code. */
  lemma KeysDistinct(i: nat, j: nat)
    requires MakeCode(i) == MakeCode(j) != 0
    ensures i == j
  {
    hide MakeCode, Position;
    if i < 52 { LowKeys(i); } else { HighKeys(i); }
    if j < 52 { LowKeys(j); } else { HighKeys(j); }
  }

  /** So the search for a key's make code finds the key. */
  lemma KeyFound(key: nat)
    requires key < SCAN_CODE_NUM && MakeCode(key) != 0
    ensures KeyOf(MakeCode(key)) == key
  {
    hide MakeCode;
    FirstMatch(MakeCode(key), 0);
    KeysDistinct(KeyOf(MakeCode(key)), key);
  }

  // -------------------------------------------------------------------- scan codes

  datatype Mode = AsciiMake | BinaryMake | LongBinaryMake | BreakCode | LongBreakCode | InvalidCode

  datatype Code = Code(mode: Mode, buf: Byte, ascii: Byte)

  predicate IsPrefix(b: Byte) {
    b == LONG || b == BREAK
  }

  predicate AllPrefix(s: seq<Byte>) {
    forall i :: 0 <= i < |s| ==> IsPrefix(s[i])
  }

  /** Which keys count as characters. */
  predicate Printing(key: nat) {
    (key < 40 || key == 68 || key > 79) && key != SCAN_CODE_NUM
  }

  /** What a byte that is no prefix means after the prefix bytes before it. */
  function CodeOf(prefix: seq<Byte>, b: Byte): Code {
    if prefix == [] then
      (if Printing(KeyOf(b)) then Code(AsciiMake, b, AsciiCode(KeyOf(b))) else Code(BinaryMake, b, 0))
    else if prefix[0] == BREAK then Code(BreakCode, b, 0)
    else if |prefix| == 1 then Code(LongBinaryMake, b, 0)
    else Code(LongBreakCode, b, 0)
  }

  /** All the codes in a stream of bytes, given the prefix bytes that came before it, and
      the prefix bytes that it leaves over. */
  function DecodeAll(prefix: seq<Byte>, bytes: seq<Byte>): (seq<Code>, seq<Byte>)
    decreases |bytes|
  {
    if bytes == [] then ([], prefix)
    else if IsPrefix(bytes[0]) then DecodeAll(prefix + [bytes[0]], bytes[1..])
    else
      var (codes, left) := DecodeAll([], bytes[1..]);
      ([CodeOf(prefix, bytes[0])] + codes, left)
  }

  /** A stream can be cut anywhere, even inside a code. */
  lemma {:induction false} SplitAnywhere(prefix: seq<Byte>, front: seq<Byte>, back: seq<Byte>)
    ensures var (codes, left) := DecodeAll(prefix, front);
            DecodeAll(prefix, front + back) == (codes + DecodeAll(left, back).0, DecodeAll(left, back).1)
    decreases |front|
  {
    hide CodeOf;
    if front == [] {
      assert front + back == back && [] + DecodeAll(prefix, back).0 == DecodeAll(prefix, back).0;
    } else {
      assert (front + back)[1..] == front[1..] + back;
      if IsPrefix(front[0]) {
        SplitAnywhere(prefix + [front[0]], front[1..], back);
      } else {
        SplitAnywhere([], front[1..], back);
        var codes, left := DecodeAll([], front[1..]).0, DecodeAll([], front[1..]).1;
        var c := [CodeOf(prefix, front[0])];
        assert c + (codes + DecodeAll(left, back).0) == (c + codes) + DecodeAll(left, back).0;
      }
    }
  }

  lemma TakePrefix(prefix: seq<Byte>, b: Byte, rest: seq<Byte>)
    requires IsPrefix(b)
    ensures DecodeAll(prefix, [b] + rest) == DecodeAll(prefix + [b], rest)
  {
  }

  lemma TakeCode(prefix: seq<Byte>, b: Byte, rest: seq<Byte>)
    requires !IsPrefix(b)
    ensures var (codes, left) := DecodeAll([], rest);
            DecodeAll(prefix, [b] + rest) == ([CodeOf(prefix, b)] + codes, left)
  {
  }

  // ------------------------------------------------------------------------ events

  /** What the keyboard sends. */
  datatype Event = Make(code: Byte) | LongMake(code: Byte) | Break(code: Byte) | LongBreak(code: Byte)

  function Encode(e: Event): seq<Byte> {
    match e
    case Make(b) => [b]
    case LongMake(b) => [LONG, b]
    case Break(b) => [BREAK, b]
    case LongBreak(b) => [LONG, BREAK, b]
  }

  function EncodeAll(events: seq<Event>): seq<Byte> {
    if events == [] then [] else Encode(events[0]) + EncodeAll(events[1..])
  }

  predicate Reports(c: Code, e: Event) {
    && c.buf == e.code
    && match e
       case Make(b) =>
         && (c.mode.AsciiMake? || c.mode.BinaryMake?)
         && (c.mode.AsciiMake? <==> Printing(KeyOf(b)))
         && c.ascii == if c.mode.AsciiMake? then AsciiCode(KeyOf(b)) else 0
       case LongMake(_) => c.mode.LongBinaryMake? && c.ascii == 0
       case Break(_) => c.mode.BreakCode? && c.ascii == 0
       case LongBreak(_) => c.mode.LongBreakCode? && c.ascii == 0
  }

  lemma DecodeOne(e: Event, rest: seq<Byte>)
    requires !IsPrefix(e.code)
    ensures var (codes, left) := DecodeAll([], Encode(e) + rest);
            && codes != [] && Reports(codes[0], e)
            && codes[1..] == DecodeAll([], rest).0 && left == DecodeAll([], rest).1
  {
    hide DecodeAll, KeyOf, AsciiCode;
    var b := e.code;
    var s := Encode(e) + rest;
    match e
    case Make(_) =>
      TakeCode([], b, rest);
    case LongMake(_) =>
      assert s == [LONG] + ([b] + rest);
      TakePrefix([], LONG, [b] + rest);
      TakeCode([] + [LONG], b, rest);
    case Break(_) =>
      assert s == [BREAK] + ([b] + rest);
      TakePrefix([], BREAK, [b] + rest);
      TakeCode([] + [BREAK], b, rest);
    case LongBreak(_) =>
      assert s == [LONG] + ([BREAK] + ([b] + rest));
      TakePrefix([], LONG, [BREAK] + ([b] + rest));
      TakePrefix([] + [LONG], BREAK, [b] + rest);
      TakeCode([] + [LONG] + [BREAK], b, rest);
  }

  /** Decoding what the keyboard sends gives back the events, one code for each. */
  lemma {:induction false} RoundTrip(events: seq<Event>)
    requires forall e :: e in events ==> !IsPrefix(e.code)
    ensures var (codes, left) := DecodeAll([], EncodeAll(events));
            && |codes| == |events| && left == []
            && forall i :: 0 <= i < |events| ==> Reports(codes[i], events[i])
    decreases |events|
  {
    hide Encode, Reports, IsPrefix;
    if events != [] {
      RoundTrip(events[1..]);
      DecodeOne(events[0], EncodeAll(events[1..]));
      var codes := DecodeAll([], EncodeAll(events)).0;
      forall i | 0 <= i < |events|
        ensures Reports(codes[i], events[i])
      {
        if i > 0 {
          assert codes[i] == codes[1..][i - 1] && events[i] == events[1..][i - 1];
        }
      }
    }
  }

  /** Which runs of prefix bytes are what the keyboard sends for the event that is then
      reported: none, a single one, and E0 F0.  Any longer run is reported as if it were
      the one that it begins like. */
  lemma SentExactly(prefix: seq<Byte>, b: Byte, e: Event)
    requires AllPrefix(prefix) && !IsPrefix(b) && Reports(CodeOf(prefix, b), e)
    ensures prefix + [b] == Encode(e) <==> |prefix| <= 1 || prefix == [LONG, BREAK]
  {
    hide KeyOf, AsciiCode;
    var s := prefix + [b];
    if |prefix| >= 2 {
      assert s[0] == prefix[0] && s[1] == prefix[1] && |s| == |prefix| + 1;
      assert s == Encode(e) ==> prefix == Encode(e)[..|prefix|] by { assert prefix == s[..|prefix|]; }
    }
  }

  /** A code is reported as a long break after E0 and at least one more prefix byte. */
  lemma LongBreakExactly(prefix: seq<Byte>, b: Byte)
    requires AllPrefix(prefix) && !IsPrefix(b)
    ensures CodeOf(prefix, b).mode.LongBreakCode? <==> |prefix| >= 2 && prefix[0] == LONG
    ensures CodeOf(prefix, b).mode.LongBreakCode? ==>
              (prefix + [b] == Encode(LongBreak(b)) <==> prefix == [LONG, BREAK])
  {
    hide KeyOf, AsciiCode;
    if CodeOf(prefix, b).mode.LongBreakCode? {
      SentExactly(prefix, b, LongBreak(b));
    }
  }

  /** A doubled long prefix is taken for a long break. */
  lemma DoubledPrefix(b: Byte)
    requires !IsPrefix(b)
    ensures DecodeAll([], [LONG, LONG, b]).0 == DecodeAll([], Encode(LongBreak(b))).0 == [Code(LongBreakCode, b, 0)]
  {
    TakePrefix([], LONG, [LONG] + [b]);
    TakePrefix([] + [LONG], LONG, [b] + []);
    TakeCode([] + [LONG] + [LONG], b, []);
    TakePrefix([], LONG, [BREAK] + [b]);
    TakePrefix([] + [LONG], BREAK, [b] + []);
    TakeCode([] + [LONG] + [BREAK], b, []);
    assert [LONG] + ([LONG] + [b]) == [LONG, LONG, b] && [LONG] + ([BREAK] + [b]) == [LONG, BREAK, b] && [b] + [] == [b];
  }

  lemma PrintingCharacters(key: nat)
    requires key <= SCAN_CODE_NUM
    ensures Printing(key) ==> (AsciiCode(key) == 0 <==> key == 39)
    ensures MakeCode(39) == 0x5D
  {
  }

  /** Every character make code carries its character, except the backslash key's. */
  lemma CharacterMissing(b: Byte)
    ensures var c := CodeOf([], b); c.mode.AsciiMake? ==> (c.ascii == 0 <==> b == 0x5D)
    ensures CodeOf([], 0x5D) == Code(AsciiMake, 0x5D, 0)
  {
    PrintingCharacters(39);
    PrintingCharacters(KeyOf(b));
    hide MakeCode, AsciiCode;
    FirstMatch(b, 0);
    KeyFound(39);
  }

  lemma CharacterKeys(key: nat)
    requires key <= SCAN_CODE_NUM && (key == SCAN_CODE_NUM || MakeCode(key) != 0 || key == 46)
    ensures Printing(key) <==> key == 39 || AsciiCode(key) >= 0x20
  {
  }

  /** A make code is reported as a character exactly when its key has a character that is
      no control character, or is the backslash key. */
  lemma CharactersExactly(b: Byte)
    ensures CodeOf([], b).mode.AsciiMake? <==> b == 0x5D || AsciiCode(KeyOf(b)) >= 0x20
    ensures !CodeOf([], b).mode.AsciiMake? ==> CodeOf([], b) == Code(BinaryMake, b, 0)
  {
    hide MakeCode, AsciiCode, KeyOf;
    BackslashKey(b);
    FoundKey(b);
    CharacterKeys(KeyOf(b));
  }

  lemma BackslashKey(b: Byte)
    ensures KeyOf(b) == 39 <==> b == 0x5D
  {
    assert MakeCode(39) == 0x5D;
    hide MakeCode;
    FirstMatch(b, 0);
    KeyFound(39);
  }

  lemma FoundKey(b: Byte)
    ensures var key := KeyOf(b);
            key <= SCAN_CODE_NUM && (key == SCAN_CODE_NUM || MakeCode(key) != 0 || key == 46)
  {
    hide MakeCode;
    FirstMatch(b, 0);
    BlankKey(b);
  }

  /** The first key without a make code. */
  lemma BlankKey(b: Byte)
    ensures b == 0 ==> KeyOf(b) == 46
  {
    BelowBlank();
    hide MakeCode;
    FirstMatch(b, 0);
  }

  lemma BelowBlank()
    ensures MakeCode(46) == 0 && forall j :: 0 <= j < 46 ==> MakeCode(j) != 0
  {
  }

  /** What the letter and digit keys send, and so what is reported for them. */
  lemma Typed(b: Byte, key: nat, c: char)
    requires key < 40 && b != 0 && MakeCode(key) == b && AsciiCode(key) == c as int
    ensures CodeOf([], b) == Code(AsciiMake, b, c as int)
  {
    hide MakeCode, AsciiCode, KeyOf;
    KeyFound(key);
  }

  lemma LettersTyped()
    ensures forall k :: 0 <= k < 26 ==>
              var b := [0x1C, 0x32, 0x21, 0x23, 0x24, 0x2B, 0x34, 0x33, 0x43, 0x3B, 0x42, 0x4B, 0x3A,
                        0x31, 0x44, 0x4D, 0x15, 0x2D, 0x1B, 0x2C, 0x3C, 0x2A, 0x1D, 0x22, 0x35, 0x1A][k];
              CodeOf([], b) == Code(AsciiMake, b, 'A' as int + k)
  {
    hide CodeOf;
    forall k | 0 <= k < 26
      ensures var b := [0x1C, 0x32, 0x21, 0x23, 0x24, 0x2B, 0x34, 0x33, 0x43, 0x3B, 0x42, 0x4B, 0x3A,
                        0x31, 0x44, 0x4D, 0x15, 0x2D, 0x1B, 0x2C, 0x3C, 0x2A, 0x1D, 0x22, 0x35, 0x1A][k];
              CodeOf([], b) == Code(AsciiMake, b, 'A' as int + k)
    {
      LettersAndDigits(k);
      Typed(MakeCode(k), k, ('A' as int + k) as char);
    }
  }

  lemma DigitsTyped()
    ensures forall k :: 0 <= k < 10 ==>
              var b := [0x45, 0x16, 0x1E, 0x26, 0x25, 0x2E, 0x36, 0x3D, 0x3E, 0x46][k];
              CodeOf([], b) == Code(AsciiMake, b, '0' as int + k)
  {
    hide CodeOf;
    forall k | 0 <= k < 10
      ensures var b := [0x45, 0x16, 0x1E, 0x26, 0x25, 0x2E, 0x36, 0x3D, 0x3E, 0x46][k];
              CodeOf([], b) == Code(AsciiMake, b, '0' as int + k)
    {
      LettersAndDigits(26 + k);
      Typed(MakeCode(26 + k), 26 + k, ('0' as int + k) as char);
    }
  }

  /** A key of the table is recognised by its make code. */
  lemma KeyRecognised(key: nat)
    requires key < SCAN_CODE_NUM && MakeCode(key) != 0
    ensures var c := CodeOf([], MakeCode(key));
            && (c.mode.AsciiMake? <==> Printing(key))
            && (Printing(key) ==> c.ascii == AsciiCode(key))
  {
    hide MakeCode, KeyOf, AsciiCode;
    KeyFound(key);
  }

  // ----------------------------------------------------------------------- machine

  datatype State = Init | LongCode | Breaking | LongBreaking | Done

  /** The state that a run of prefix bytes leads to: four states stand for all runs. */
  function StateAfter(prefix: seq<Byte>): State {
    if prefix == [] then Init
    else if prefix[0] == BREAK then Breaking
    else if |prefix| == 1 then LongCode
    else LongBreaking
  }

  /** What a prefix byte leaves in the mode: the first of a run leaves it alone. */
  function ModeAfter(mode: Mode, state: State): Mode {
    match state
    case Init => mode
    case LongCode => BreakCode
    case Breaking => BreakCode
    case LongBreaking => LongBreakCode
    case Done => InvalidCode
  }

  /** What a call that runs out of bytes leaves in the mode, having read some prefix
      bytes after those of earlier calls. */
  function ModeLeft(before: seq<Byte>, read: seq<Byte>): Mode {
    if read == [] then InvalidCode
    else
      var all := before + read;
      ModeAfter(InvalidCode, StateAfter(all[..|all| - 1]))
  }

  /** That is: no code after a single prefix byte, a long break after three from E0 on, and
      a break otherwise. */
  lemma ModeLeftIs(before: seq<Byte>, read: seq<Byte>)
    requires AllPrefix(before + read) && read != []
    ensures var all := before + read;
            ModeLeft(before, read)
            == if |all| == 1 then InvalidCode
               else if all[0] == LONG && |all| > 2 then LongBreakCode
               else BreakCode
  {
    assert (before + read)[0] in before + read;
  }

  /** get_next_state, with what its in-out parameters hold before and after. */
  method GetNextState(state: State, byte: Byte, mode0: Mode, buf0: Byte, ghost prefix: seq<Byte>)
    returns (next: State, mode: Mode, buf: Byte, ascii: Byte)
    requires state.Done? || (state == StateAfter(prefix) && AllPrefix(prefix))
    ensures state.Done? ==> next == Init && mode == InvalidCode
    ensures !state.Done? && IsPrefix(byte) ==>
              next == StateAfter(prefix + [byte]) && Code(mode, buf, ascii) == Code(ModeAfter(mode0, state), buf0, 0)
    ensures !state.Done? && !IsPrefix(byte) ==> next == Done && Code(mode, buf, ascii) == CodeOf(prefix, byte)
  {
    hide MakeCode, KeyOf, AsciiCode;
    next, mode, buf, ascii := Init, mode0, buf0, 0;
    match state
    case Init =>
      if byte == 0xE0 {
        next := LongCode;
      } else if byte == 0xF0 {
        next := Breaking;
      } else {
        var key := KeyIndex(byte);
        if (key < 40 || key == 68 || key > 79) && key != SCAN_CODE_NUM {
          mode := AsciiMake;
          ascii := AsciiCode(key);
          buf := byte;
        } else {
          mode := BinaryMake;
          buf := byte;
        }
        next := Done;
      }
    case LongCode =>
      if byte != 0xF0 && byte != 0xE0 {
        mode := LongBinaryMake;
        buf := byte;
        next := Done;
      } else {
        mode := BreakCode;
        next := LongBreaking;
      }
    case Breaking =>
      if byte != 0xF0 && byte != 0xE0 {
        mode := BreakCode;
        buf := byte;
        next := Done;
      } else {
        next := Breaking;
        mode := BreakCode;
      }
    case LongBreaking =>
      if byte != 0xF0 && byte != 0xE0 {
        mode := LongBreakCode;
        buf := byte;
        next := Done;
      } else {
        next := LongBreaking;
        mode := LongBreakCode;
      }
    case Done =>
      mode := InvalidCode;
      next := Init;
  }

  lemma NothingRead(before: seq<Byte>)
    ensures ModeLeft(before, []) == InvalidCode && DecodeAll(before, []) == ([], before)
    ensures StateAfter(before) == Init <==> before == []
    ensures !StateAfter(before).Done?
  {
  }

  lemma MoreRead(before: seq<Byte>, read: seq<Byte>, b: Byte)
    ensures ModeLeft(before, read + [b]) == ModeAfter(ModeLeft(before, read), StateAfter(before + read))
  {
    var all := before + (read + [b]);
    assert all[..|all| - 1] == before + read;
  }

  /** What happens around the decoder: bytes arrive, or a caller asks for a code. */
  datatype Step = Arrive(bytes: seq<Byte>) | Ask

  function Arrivals(steps: seq<Step>): seq<Byte> {
    if steps == [] then []
    else (if steps[0].Arrive? then steps[0].bytes else []) + Arrivals(steps[1..])
  }

  datatype Option<T> = None | Some(value: T)

  /** What the calls of a schedule should return: the codes of the bytes that have arrived
      wait in a queue, behind them the prefix bytes left over, and a call takes the first. */
  function Replies(queue: seq<Code>, left: seq<Byte>, steps: seq<Step>): seq<Option<Code>>
    decreases |steps|
  {
    if steps == [] then []
    else match steps[0]
      case Arrive(bytes) => Replies(queue + DecodeAll(left, bytes).0, DecodeAll(left, bytes).1, steps[1..])
      case Ask =>
        if queue == [] then [None] + Replies([], left, steps[1..])
        else [Some(queue[0])] + Replies(queue[1..], left, steps[1..])
  }

  /** The codes among the replies. */
  function Given(replies: seq<Option<Code>>): seq<Code> {
    if replies == [] then []
    else (match replies[0] case None => [] case Some(code) => [code]) + Given(replies[1..])
  }

  class Decoder {
    /** The decoder's static variable. */
    var state: State
    /** The device's receive FIFO. */
    var fifo: seq<Byte>
    /** The prefix bytes read since the last complete code. */
    ghost var prefix: seq<Byte>

    ghost predicate Valid()
      reads this
    {
      !state.Done? && state == StateAfter(prefix) && AllPrefix(prefix)
    }

    constructor ()
      ensures Valid() && fifo == [] && prefix == []
    {
      state, fifo, prefix := Init, [], [];
    }

    /** alt_up_ps2_read_data_byte. */
    method ReadDataByte() returns (status: int, byte: Byte)
      modifies `fifo
      ensures old(fifo) == [] ==> status == -1 && fifo == []
      ensures old(fifo) != [] ==> status == 0 && [byte] + fifo == old(fifo)
    {
      if fifo == [] {
        return -1, 0;
      }
      status, byte := 0, fifo[0];
      fifo := fifo[1..];
      assert [byte] + fifo == old(fifo);
    }

    /** A call has read some prefix bytes of the stream f after the bytes p of earlier
        calls, and left c in its caller's variables. */
    ghost predicate Midway(p: seq<Byte>, f: seq<Byte>, read: seq<Byte>, c: Code, c0: Code)
      reads this
    {
      && Valid() && prefix == p + read && read + fifo == f && DecodeAll(prefix, fifo) == DecodeAll(p, f)
      && c == Code(ModeLeft(p, read), c0.buf, if read == [] then c0.ascii else 0)
    }

    /** One turn of the loop of decode_scancode, for a byte that has been read. */
    method TakeByte(byte: Byte, c: Code, ghost p: seq<Byte>, ghost f: seq<Byte>, ghost read: seq<Byte>, ghost c0: Code)
      returns (next: Code)
      requires !state.Done? && state == StateAfter(prefix) && AllPrefix(prefix)
      requires prefix == p + read && read + ([byte] + fifo) == f && DecodeAll(prefix, [byte] + fifo) == DecodeAll(p, f)
      requires c == Code(ModeLeft(p, read), c0.buf, if read == [] then c0.ascii else 0)
      modifies `state, `prefix
      ensures !state.Done? ==> Midway(p, f, read + [byte], next, c0)
      ensures state.Done? ==>
                prefix == [] && DecodeAll(p, f) == ([next] + DecodeAll([], fifo).0, DecodeAll([], fifo).1)
    {
      NothingRead(prefix);
      NothingRead(prefix + [byte]);
      MoreRead(p, read, byte);
      hide CodeOf, DecodeAll, ModeLeft, ModeAfter, StateAfter, IsPrefix;
      var mode, buf, ascii;
      state, mode, buf, ascii := GetNextState(state, byte, c.mode, c.buf, prefix);
      next := Code(mode, buf, ascii);
      if state == Done {
        TakeCode(prefix, byte, fifo);
        prefix := [];
      } else {
        TakePrefix(prefix, byte, fifo);
        assert (read + [byte]) + fifo == read + ([byte] + fifo);
        prefix := prefix + [byte];
      }
    }

    /** decode_scancode: a code when the FIFO completes one, and otherwise the reason, with
        what was read kept for the next call. */
    method DecodeScancode(buf0: Byte, ascii0: Byte) returns (rc: int, code: Code)
      requires Valid()
      modifies this
      ensures Valid()
      ensures rc == 0 ==>
                DecodeAll(old(prefix), old(fifo)) == ([code] + DecodeAll(prefix, fifo).0, DecodeAll(prefix, fifo).1)
                && prefix == [] && |fifo| < |old(fifo)|
      ensures rc != 0 ==>
                && fifo == [] && prefix == old(prefix) + old(fifo) && DecodeAll(old(prefix), old(fifo)) == ([], prefix)
                && rc == (if prefix == [] then -1 else -2)
                && code == Code(ModeLeft(old(prefix), old(fifo)), buf0, if old(fifo) == [] then ascii0 else 0)
    {
      NothingRead(prefix);
      hide CodeOf, DecodeAll, ModeLeft, ModeAfter, StateAfter, IsPrefix;
      code := Code(InvalidCode, buf0, ascii0);
      ghost var c0, read := code, [];
      assert old(prefix) + [] == old(prefix) && [] + old(fifo) == old(fifo);
      while true
        invariant Midway(old(prefix), old(fifo), read, code, c0) && |fifo| <= |old(fifo)|
        decreases |fifo|
      {
        var status, byte := ReadDataByte();
        if status != 0 {
          NothingRead(prefix);
          assert read + [] == read;
          rc := if state == Init then status else -2;
          return;
        }
        code := TakeByte(byte, code, old(prefix), old(fifo), read, c0);
        if state == Done {
          break;
        }
        read := read + [byte];
      }
      state := Init;
      NothingRead([]);
      rc := 0;
    }

    /** One call: the next code of the bytes that have arrived, or nothing if there is
        none. */
    method Answer() returns (reply: Option<Code>)
      requires Valid()
      modifies this
      ensures Valid()
      ensures var (queue, left) := DecodeAll(old(prefix), old(fifo));
              if queue == [] then reply == None && DecodeAll(prefix, fifo) == ([], left)
              else reply == Some(queue[0]) && DecodeAll(prefix, fifo) == (queue[1..], left)
    {
      hide CodeOf, IsPrefix, StateAfter, DecodeAll;
      var rc, code := DecodeScancode(0, 0);
      NothingRead(prefix);
      reply := if rc == 0 then Some(code) else None;
    }

    /** Any schedule of arrivals and calls: each call returns the next code of the bytes that
        have arrived, and nothing only if there is none.  What the calls return, followed by
        what is still to be decoded, does not depend on when the calls are made. */
    method Run(steps: seq<Step>) returns (replies: seq<Option<Code>>)
      requires Valid()
      modifies this
      ensures Valid()
      ensures replies == Replies(DecodeAll(old(prefix), old(fifo)).0, DecodeAll(old(prefix), old(fifo)).1, steps)
      ensures DecodeAll(old(prefix), old(fifo) + Arrivals(steps))
           == (Given(replies) + DecodeAll(prefix, fifo).0, DecodeAll(prefix, fifo).1)
      decreases |steps|
    {
      hide CodeOf, IsPrefix, StateAfter, DecodeAll, Given;
      replies := [];
      if steps == [] {
        NoReply([], DecodeAll(prefix, fifo).0);
        assert fifo + [] == fifo;
      } else if steps[0].Arrive? {
        var bytes := steps[0].bytes;
        assert fifo + (bytes + Arrivals(steps[1..])) == (fifo + bytes) + Arrivals(steps[1..]);
        SplitAnywhere(prefix, fifo, bytes);
        fifo := fifo + bytes;
        replies := Run(steps[1..]);
      } else {
        ghost var p, f, later := prefix, fifo, Arrivals(steps[1..]);
        assert [] + later == later;
        var reply := Answer();
        OneReply(reply, DecodeAll(p, f).0, DecodeAll(prefix, fifo).0);
        Continue(p, f, prefix, fifo, later, Given([reply]));
        var more := Run(steps[1..]);
        replies := [reply] + more;
        MoreReplies(reply, more, DecodeAll(prefix, fifo).0);
      }
    }
  }

  lemma NoReply(replies: seq<Option<Code>>, rest: seq<Code>)
    requires replies == []
    ensures Given(replies) + rest == rest
  {
  }

  lemma OneReply(reply: Option<Code>, queue: seq<Code>, rest: seq<Code>)
    requires if queue == [] then reply == None && rest == [] else reply == Some(queue[0]) && rest == queue[1..]
    ensures queue == Given([reply]) + rest
  {
  }

  lemma MoreReplies(reply: Option<Code>, more: seq<Option<Code>>, rest: seq<Code>)
    ensures Given([reply] + more) + rest == Given([reply]) + (Given(more) + rest)
  {
    assert Given([reply] + more) == Given([reply]) + Given(more);
  }

  lemma Continue(p: seq<Byte>, f: seq<Byte>, p': seq<Byte>, f': seq<Byte>, later: seq<Byte>, first: seq<Code>)
    requires DecodeAll(p, f) == (first + DecodeAll(p', f').0, DecodeAll(p', f').1)
    ensures DecodeAll(p, f + later) == (first + DecodeAll(p', f' + later).0, DecodeAll(p', f' + later).1)
  {
    hide DecodeAll;
    SplitAnywhere(p, f, later);
    SplitAnywhere(p', f', later);
    var left := DecodeAll(p', f').1;
    assert (first + DecodeAll(p', f').0) + DecodeAll(left, later).0 == first + (DecodeAll(p', f').0 + DecodeAll(left, later).0);
  }
}
