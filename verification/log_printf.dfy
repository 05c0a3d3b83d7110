/** Printing numbers: the integer directives of the HAL's log printf, and %x of its small
    printf.  Words are 32 bits. */
module LogPrintf {
  import opened Machine

  // --------------------------------------------------------------------- numerals

  /** Digits, most significant first. */
  type Digits = seq<nat>

  function Eval(ds: Digits, base: nat): nat {
    if ds == [] then 0 else Eval(ds[..|ds| - 1], base) * base + ds[|ds| - 1]
  }

  predicate AreDigits(ds: Digits, base: nat) {
    forall i :: 0 <= i < |ds| ==> ds[i] < base
  }

  /** The digits of a number. */
  function Numeral(v: nat, base: nat): Digits
    requires base >= 2
  {
    if v < base then [v]
    else
      Quotient(v, base);
      Numeral(v / base, base) + [v % base]
  }

  lemma EvalOneMore(ds: Digits, d: nat, base: nat)
    ensures Eval(ds + [d], base) == Eval(ds, base) * base + d
  {
  }

  /** The numeral stands for the number, with digits below the base and no leading zero
      except that of 0 itself. */
  lemma {:induction false} NumeralIsRight(v: nat, base: nat)
    requires base >= 2
    ensures Eval(Numeral(v, base), base) == v
    ensures AreDigits(Numeral(v, base), base) && Numeral(v, base) != []
    ensures Numeral(v, base)[0] == 0 ==> v == 0
    decreases v
  {
    if v < base {
      EvalOneMore([], v, base);
      assert [] + [v] == [v];
    } else {
      Quotient(v, base);
      NumeralIsRight(v / base, base);
      EvalOneMore(Numeral(v / base, base), v % base, base);
    }
  }

  lemma Quotient(v: nat, base: nat)
    requires base >= 2
    ensures v == (v / base) * base + v % base && v % base < base
    ensures v >= base ==> 1 <= v / base < v
  {
  }

  lemma {:induction false} EvalPositive(ds: Digits, base: nat)
    requires base >= 2 && ds != [] && ds[0] > 0
    ensures Eval(ds, base) > 0
    decreases |ds|
  {
    var n := |ds| - 1;
    if n > 0 {
      EvalPositive(ds[..n], base);
      ScaleUp(1, Eval(ds[..n], base), base);
    } else {
      EvalOneMore([], ds[0], base);
      assert [] + [ds[0]] == ds;
    }
  }

  /** Nothing else does: digits without a leading zero are the numeral of their value. */
  lemma {:induction false} OnlyNumeral(ds: Digits, base: nat)
    requires base >= 2 && AreDigits(ds, base) && ds != [] && (|ds| > 1 ==> ds[0] > 0)
    ensures ds == Numeral(Eval(ds, base), base)
    decreases |ds|
  {
    var n := |ds| - 1;
    var front, last := ds[..n], ds[n];
    var v := Eval(ds, base);
    if n == 0 {
      EvalOneMore([], last, base);
      assert [] + [last] == ds;
    } else {
      OnlyNumeral(front, base);
      EvalPositive(front, base);
      ScaleUp(1, Eval(front, base), base);
      QuotientIs(v, base, Eval(front, base));
      Quotient(v, base);
      assert ds == front + [last];
    }
  }

  // ------------------------------------------------------------------------- text

  function DigitChar(d: nat, upper: bool): char
    requires d < 16
  {
    if d <= 9 then (d + 48) as char else ((if upper then 65 else 97) + d - 10) as char
  }

  function CharValue(c: char): nat {
    var n := c as int;
    if 48 <= n <= 57 then n - 48
    else if 65 <= n <= 70 then n - 55
    else if 97 <= n <= 102 then n - 87
    else 0
  }

  function Text(ds: Digits, upper: bool): (s: string)
    requires AreDigits(ds, 16)
    ensures |s| == |ds| && forall i :: 0 <= i < |s| ==> s[i] == DigitChar(ds[i], upper)
  {
    seq(|ds|, i requires 0 <= i < |ds| => DigitChar(ds[i], upper))
  }

  function Repeat(c: char, n: nat): (s: string)
    ensures |s| == n && forall i :: 0 <= i < |s| ==> s[i] == c
  {
    seq(n, _ => c)
  }

  /** The value of a digit string. */
  function EvalText(s: string, base: nat): nat {
    if s == "" then 0 else EvalText(s[..|s| - 1], base) * base + CharValue(s[|s| - 1])
  }

  /** How a reader takes a field: spaces, a sign, digits. */
  function Read(s: string, base: nat): int {
    if s == "" then 0
    else if s[0] == ' ' then Read(s[1..], base)
    else if s[0] == '-' then 0 - EvalText(s[1..], base)
    else EvalText(s, base)
  }

  // ------------------------------------------------------------------------ fields

  /** One integer directive: d, i, u, o, x or X with its flags. */
  datatype Format = Format(base: nat, signed: bool, leadingZero: bool, upper: bool, width: int)

  predicate ValidBase(base: nat) {
    base == 8 || base == 10 || base == 16
  }

  function Negative(f: Format, word: u32): bool {
    f.signed && word >= 0x8000_0000
  }

  /** The number that a word means. */
  function Meaning(f: Format, word: u32): int {
    if Negative(f, word) then word - TWO_32 else word
  }

  ghost function DigitsOf(f: Format, word: u32): string
    requires ValidBase(f.base)
  {
    var v := Abs(Meaning(f, word));
    NumeralIsRight(v, f.base);
    Text(Numeral(v, f.base), f.upper)
  }

  ghost function Field(f: Format, word: u32): string
    requires ValidBase(f.base)
  {
    var sign := if Negative(f, word) then "-" else "";
    Layout(f.leadingZero, sign, DigitsOf(f, word), f.width)
  }

  /** Where the padding goes. */
  function Layout(leadingZero: bool, sign: string, digits: string, width: int): string {
    var pad := Max(width - |digits| - |sign|, 0);
    if leadingZero then sign + (Repeat('0', pad) + digits) else Repeat(' ', pad) + (sign + digits)
  }

  /** Padding on the left to the width asked for: zeros after the sign if the directive
      begins with a zero, and otherwise spaces before it. */
  lemma PadsWith(f: Format, word: u32, i: nat)
    requires ValidBase(f.base) && i < |Field(f, word)|
    ensures var digits := DigitsOf(f, word);
            var sign := if f.signed && ToI32(word) < 0 then "-" else "";
            var pad := Max(f.width - |digits| - |sign|, 0);
            && |Field(f, word)| == |sign| + pad + |digits|
            && Field(f, word)[i]
               == if i >= pad + |sign| then digits[i - pad - |sign|]
                  else if f.leadingZero then (if i < |sign| then '-' else '0')
                  else if i < pad then ' ' else '-'
  {
    MeaningIs(f, word);
    hide DigitsOf;
  }

  /** The digits, in the case asked for. */
  lemma DigitsAre(d: nat, upper: bool)
    requires d < 16
    ensures DigitChar(d, upper) == (if upper then "0123456789ABCDEF" else "0123456789abcdef")[d]
  {
  }

  /** A word means what its 32 bits mean, in two's complement if the directive is signed. */
  lemma MeaningIs(f: Format, word: u32)
    ensures Meaning(f, word) == if f.signed then ToI32(word) else word
  {
  }

  lemma DigitReads(d: nat, upper: bool)
    requires d < 16
    ensures CharValue(DigitChar(d, upper)) == d && DigitChar(d, upper) != ' ' && DigitChar(d, upper) != '-'
  {
  }

  lemma {:induction false} TextReads(ds: Digits, base: nat, upper: bool)
    requires AreDigits(ds, 16)
    ensures EvalText(Text(ds, upper), base) == Eval(ds, base)
    decreases |ds|
  {
    if ds != [] {
      var n := |ds| - 1;
      TextReads(ds[..n], base, upper);
      assert Text(ds, upper)[..n] == Text(ds[..n], upper);
      DigitReads(ds[n], upper);
    }
  }

  lemma {:induction false} ZerosRead(n: nat, s: string, base: nat)
    ensures EvalText(Repeat('0', n) + s, base) == EvalText(s, base)
    decreases |s|, n
  {
    if s != "" {
      var m := |s| - 1;
      ZerosRead(n, s[..m], base);
      assert (Repeat('0', n) + s)[..n + m] == Repeat('0', n) + s[..m];
    } else if n > 0 {
      ZerosRead(n - 1, s, base);
      assert (Repeat('0', n) + s)[..n - 1] == Repeat('0', n - 1) + s;
    }
  }

  lemma {:induction false} SpacesRead(n: nat, s: string, base: nat)
    ensures Read(Repeat(' ', n) + s, base) == Read(s, base)
  {
    if n > 0 {
      SpacesRead(n - 1, s, base);
      assert (Repeat(' ', n) + s)[1..] == Repeat(' ', n - 1) + s;
    } else {
      assert Repeat(' ', n) + s == s;
    }
  }

  /** A field is as wide as asked, or as the number needs. */
  lemma FieldWidth(f: Format, word: u32)
    requires ValidBase(f.base)
    ensures |Field(f, word)|
         == Max(f.width, |Numeral(Abs(Meaning(f, word)), f.base)| + if Negative(f, word) then 1 else 0)
  {
  }

  /** Reading a field back gives the number, for every word, -2^31 included. */
  lemma FieldReads(f: Format, word: u32)
    requires ValidBase(f.base)
    ensures Read(Field(f, word), f.base) == if f.signed then ToI32(word) else word
  {
    MeaningIs(f, word);
    var v := Abs(Meaning(f, word));
    NumeralIsRight(v, f.base);
    var digits := Text(Numeral(v, f.base), f.upper);
    var sign := if Negative(f, word) then "-" else "";
    TextReads(Numeral(v, f.base), f.base, f.upper);
    DigitReads(Numeral(v, f.base)[0], f.upper);
    LayoutReads(f.leadingZero, sign, digits, f.width, f.base);
  }

  lemma LayoutReads(leadingZero: bool, sign: string, digits: string, width: int, base: nat)
    requires (sign == "" || sign == "-") && digits != "" && digits[0] != ' ' && digits[0] != '-'
    ensures Read(Layout(leadingZero, sign, digits, width), base)
         == if sign == "" then EvalText(digits, base) else 0 - EvalText(digits, base)
  {
    hide Read, EvalText;
    var pad := Max(width - |digits| - |sign|, 0);
    if leadingZero {
      ZerosRead(pad, digits, base);
      SignReads(sign, Repeat('0', pad) + digits, base);
    } else {
      SpacesRead(pad, sign + digits, base);
      SignReads(sign, digits, base);
    }
  }

  lemma SignReads(sign: string, s: string, base: nat)
    requires (sign == "" || sign == "-") && s != "" && s[0] != ' ' && s[0] != '-'
    ensures Read(sign + s, base) == if sign == "" then EvalText(s, base) else 0 - EvalText(s, base)
  {
    if sign == "" {
      assert sign + s == s;
    } else {
      assert (sign + s)[1..] == s;
    }
  }

  // ---------------------------------------------------------------------- printing

  function Pow(base: nat, k: nat): nat {
    if k == 0 then 1 else Pow(base, k - 1) * base
  }

  /** The digit count has reached place p: s is how many of it fit below v. */
  ghost predicate Counted(v: nat, base: nat, count: nat, p: nat, s: nat) {
    && count >= 1 && p == Pow(base, count - 1) && p >= 1
    && p * s <= v < p * s + p
    && (count > 1 ==> p <= v)
  }

  lemma CountNext(v: nat, base: nat, count: nat, p: nat, s: nat)
    requires base >= 2 && Counted(v, base, count, p, s) && s / base >= 1
    ensures Counted(v, base, count + 1, p * base, s / base) && p * base <= v && s / base < s
  {
    var q := s / base;
    Quotient(s, base);
    PlaceScales(v, base, p, s, q);
    ScaleOrder(p * base, 1, q);
  }

  lemma CountDone(v: nat, base: nat, count: nat, p: nat, s: nat)
    requires base >= 2 && Counted(v, base, count, p, s) && s / base == 0
    ensures v < p * base
  {
    Quotient(s, base);
    PlaceScales(v, base, p, s, 0);
  }

  lemma PlaceScales(v: nat, base: nat, p: nat, s: nat, q: nat)
    requires p * s <= v < p * s + p && q * base <= s < q * base + base
    ensures (p * base) * q <= v < (p * base) * q + p * base
  {
    assert (p * base) * q == p * (q * base);
    ScaleOrder(p, q * base, s);
    ScaleOrder(p, s + 1, q * base + base);
    assert p * (s + 1) == p * s + p && p * (q * base + base) == p * (q * base) + p * base;
  }

  /** The digits printed so far, worth `front`, and the rest v still make up the value;
      `left` digits are to come, the next at place p, and 0 stands for no place. */
  ghost predicate Split(value: nat, base: nat, front: nat, left: nat, p: nat, v: nat) {
    && p == (if left == 0 then 0 else Pow(base, left - 1))
    && v < Pow(base, left) && value == front * Pow(base, left) + v
  }

  /** One more digit d, leaving r of the value and the place below p. */
  lemma SplitNext(value: nat, base: nat, front: nat, left: nat, p: nat, v: nat, d: nat, r: nat, below: nat)
    requires base >= 2 && left >= 1 && Split(value, base, front, left, p, v)
    requires v == d * p + r && r < p && below == p / base
    ensures d < base && below < p
    ensures Split(value, base, front * base + d, left - 1, below, r)
  {
    PlaceDown(base, left);
    Smaller(p, base, below);
    TakeDigit(value, base, front, p, Pow(base, left), v, d, r, front * base + d);
    hide Pow;
  }

  lemma Smaller(p: nat, base: nat, below: nat)
    requires p >= 1 && base >= 2 && below == p / base
    ensures below < p
  {
  }

  lemma TakeDigit(value: nat, base: nat, front: nat, p: nat, big: nat, v: nat, d: nat, r: nat, more: nat)
    requires big == p * base && value == front * big + v && v == d * p + r && v < big && more == front * base + d
    ensures d < base && value == more * p + r
  {
    DigitBelowBase(d, p, base, v, r);
    CarryIn(front, base, d, p);
  }

  /** The place below the left-th. */
  lemma PlaceDown(base: nat, left: nat)
    requires base >= 2 && left >= 1
    ensures var p := Pow(base, left - 1);
            p >= 1 && Pow(base, left) == p * base && p / base == if left == 1 then 0 else Pow(base, left - 2)
  {
    if left > 1 {
      PowShrinks(base, left - 2);
    }
  }

  lemma DigitBelowBase(d: nat, p: nat, base: nat, v: nat, r: nat)
    requires v == d * p + r && v < p * base
    ensures d < base
  {
    if d >= base {
      ScaleOrder(p, base, d);
    }
  }

  lemma CarryIn(front: nat, base: nat, d: nat, p: nat)
    ensures (front * base + d) * p == front * (p * base) + d * p
  {
    assert (front * base) * p == front * (p * base);
  }

  lemma DivMod(v: nat, p: nat)
    requires p >= 1
    ensures v / p >= 0 && v % p >= 0 && v == (v / p) * p + v % p && v % p < p
  {
  }

  lemma SplitEnds(value: nat, base: nat, front: nat, left: nat, p: nat, v: nat)
    requires base >= 1 && Split(value, base, front, left, p, v)
    ensures p == 0 <==> left == 0
    ensures p == 0 ==> value == front
  {
    if left > 0 {
      PowPositive(base, left - 1);
    }
  }

  /** The digit loop: ds has been printed, `left` digits are to come. */
  ghost predicate Printing(word: nat, place: nat, base: nat, count: nat, ds: Digits, left: nat, p: nat, v: nat) {
    && 2 <= base <= 16 && AreDigits(ds, base) && |ds| + left == count && count >= 1
    && Split(word, base, Eval(ds, base), left, p, v)
    && (count > 1 ==> 1 <= place <= word)
    && (ds == [] ==> v == word && p == place)
    && (count > 1 && ds != [] ==> ds[0] > 0)
  }

  /** place is the largest that fits in the word, which has `count` digits. */
  ghost predicate Leading(word: nat, base: nat, count: nat, place: nat) {
    && count >= 1 && 1 <= place == Pow(base, count - 1) && word < place * base
    && (count > 1 ==> place <= word)
  }

  lemma Begins(word: nat, place: nat, base: nat, count: nat)
    requires 2 <= base <= 16 && Leading(word, base, count, place)
    ensures Printing(word, place, base, count, [], count, place, word)
  {
  }

  lemma Continues(word: nat, place: nat, base: nat, count: nat, ds: Digits, left: nat, p: nat, v: nat, d: nat, r: nat, below: nat)
    requires Printing(word, place, base, count, ds, left, p, v) && p >= 1
    requires v == d * p + r && r < p && below == p / base && d == v / p
    ensures d < base <= 16 && below < p && left >= 1 && AreDigits(ds, 16)
    ensures Printing(word, place, base, count, ds + [d], left - 1, below, r)
  {
    SplitEnds(word, base, Eval(ds, base), left, p, v);
    SplitNext(word, base, Eval(ds, base), left, p, v, d, r, below);
    EvalOneMore(ds, d, base);
    hide Split, Eval;
    if ds == [] && count > 1 {
      AtLeastOne(word, p);
    }
  }

  lemma Ends(word: nat, place: nat, base: nat, count: nat, ds: Digits, left: nat, v: nat)
    requires Printing(word, place, base, count, ds, left, 0, v)
    ensures ds == Numeral(word, base) && |ds| == count && AreDigits(ds, 16)
  {
    SplitEnds(word, base, Eval(ds, base), left, 0, v);
    OnlyNumeral(ds, base);
  }

  lemma PowShrinks(base: nat, k: nat)
    requires base >= 2
    ensures Pow(base, k) >= 1
    ensures Pow(base, k + 1) / base == Pow(base, k)
  {
    if k > 0 {
      PowShrinks(base, k - 1);
      ScaleUp(1, Pow(base, k - 1), base);
    }
    QuotientIs(Pow(base, k + 1), base, Pow(base, k));
  }

  class Console {
    /** What has been sent to the device. */
    var out: string

    constructor ()
      ensures out == ""
    {
      out := "";
    }

    /** alt_log_txchar and alt_putchar. */
    method TxChar(c: char)
      modifies this
      ensures out == old(out) + [c]
    {
      out := out + [c];
    }

    /** alt_log_repchar. */
    method RepChar(c: char, r: int)
      modifies this
      ensures out == old(out) + Repeat(c, Max(r, 0))
    {
      var left := r;
      ghost var sent := 0;
      while left > 0
        invariant sent == r - left && 0 <= sent <= Max(r, 0)
        invariant out == old(out) + Repeat(c, sent)
      {
        left := left - 1;
        TxChar(c);
        assert Repeat(c, sent) + [c] == Repeat(c, sent + 1);
        sent := sent + 1;
      }
    }

    /** The digit count and the largest place value. */
    static method CountDigits(v: u32, base: nat) returns (count: nat, p: u32)
      requires base >= 2
      ensures Leading(v, base, count, p)
    {
      var shrink: nat := v;
      p, count := 1, 1;
      assert Counted(v, base, count, p, shrink);
      while shrink / base > 0
        invariant Counted(v, base, count, p, shrink)
        decreases shrink
      {
        hide Counted, Pow;
        CountNext(v, base, count, p, shrink);
        shrink := shrink / base;
        count := count + 1;
        p := p * base;
      }
      CountDone(v, base, count, p, shrink);
    }

    /** One turn of the digit loop. */
    method NextDigit(v: nat, p: nat, base: nat, upper: bool, ghost word: nat, ghost place: nat, ghost count: nat, ghost ds: Digits, ghost before: string)
      returns (rest: nat, below: nat, ghost more: Digits)
      requires p >= 1 && base >= 2 && |ds| <= count && Printing(word, place, base, count, ds, count - |ds|, p, v)
      requires AreDigits(ds, 16) && out == before + Text(ds, upper)
      modifies this
      ensures below < p && |more| <= count && Printing(word, place, base, count, more, count - |more|, below, rest)
      ensures AreDigits(more, 16) && out == before + Text(more, upper)
    {
      hide *;
      DivMod(v, p);
      var d := v / p;
      rest := v % p;
      below := p / base;
      Continues(word, place, base, count, ds, count - |ds|, p, v, d, rest, below);
      PrintDigit(ds, d, upper, before);
      more := ds + [d];
    }

    /** The digits, from the largest place down. */
    method PrintDigits(word: u32, place: u32, base: nat, upper: bool, ghost count: nat)
      requires 2 <= base <= 16 && Leading(word, base, count, place)
      modifies this
      ensures var ds := Numeral(word, base);
              |ds| == count && AreDigits(ds, 16) && out == old(out) + Text(ds, upper)
    {
      Begins(word, place, base, count);
      hide *;
      var v: nat, p: nat := word, place;
      ghost var ds: Digits := [];
      NothingPrinted(out, upper);
      while p != 0
        invariant |ds| <= count && Printing(word, place, base, count, ds, count - |ds|, p, v)
        invariant AreDigits(ds, 16) && out == old(out) + Text(ds, upper)
        decreases p
      {
        v, p, ds := NextDigit(v, p, base, upper, word, place, count, ds, old(out));
      }
      Ends(word, place, base, count, ds, count - |ds|, v);
    }

    method PrintDigit(ghost ds: Digits, d: nat, upper: bool, ghost before: string)
      requires d < 16 && AreDigits(ds, 16) && out == before + Text(ds, upper)
      modifies this
      ensures AreDigits(ds + [d], 16) && out == before + Text(ds + [d], upper)
    {
      var c := d + 48;
      if c > 57 {
        c := c + (if upper then 65 else 97) - 48 - 10;
      }
      TxChar(c as char);
      assert Text(ds + [d], upper) == Text(ds, upper) + [DigitChar(d, upper)];
    }

    /** The first non-zero hexadecimal place. */
    static method TopNibble(v: u32) returns (place: nat)
      requires v > 0
      ensures place <= 7 && Above(v, place + 1) == 0 && Nibble(v, 4 * place) > 0
    {
      hide *;
      place := 7;
      NibbleExtends(v, 7);
      while Nibble(v, 4 * place) == 0
        invariant 0 <= place <= 7 && Above(v, place + 1) == 0
        decreases place
      {
        NibbleExtends(v, place);
        place := place - 1;
      }
    }

    /** The x directive of alt_printf. */
    method PrintHex(v: u32)
      modifies this
      ensures AreDigits(Numeral(v, 16), 16) && out == old(out) + Text(Numeral(v, 16), false)
    {
      NumeralIsRight(v, 16);
      if v == 0 {
        TxChar('0');
        assert Text([0], false) == "0";
        return;
      }
      ghost var ds: Digits := [];
      assert Eval(ds, 16) == 0;
      NothingPrinted(out, false);
      hide *;
      var first := TopNibble(v);
      var place: int := first;
      while place >= 0
        invariant -1 <= place <= first <= 7 && |ds| == first - place
        invariant AreDigits(ds, 16) && Eval(ds, 16) == Above(v, place + 1)
        invariant ds != [] ==> ds[0] > 0
        invariant ds == [] ==> place == first && Nibble(v, 4 * place) > 0
        invariant out == old(out) + Text(ds, false)
      {
        NibbleExtends(v, place);
        var digit := Nibble(v, 4 * place);
        EvalOneMore(ds, digit, 16);
        PrintDigit(ds, digit, false, old(out));
        ds := ds + [digit];
        place := place - 1;
      }
      NibbleExtends(v, 0);
      OnlyNumeral(ds, 16);
    }

    /** An integer directive of alt_log_private_printf. */
    method PrintInteger(f: Format, word: u32)
      requires ValidBase(f.base)
      modifies this
      ensures out == old(out) + Field(f, word)
    {
      var v: int := word;
      var sign := false;
      if f.signed && v >= 0x8000_0000 {
        v := ToU32(ToU32(-1 - v) + 1);
        sign := true;
      }
      assert v == Abs(Meaning(f, word)) && sign == Negative(f, word);
      var count, p := CountDigits(v, f.base);
      var width := f.width - count;
      if f.leadingZero {
        if sign {
          TxChar('-');
          width := width - 1;
        }
        RepChar('0', width);
      } else {
        if sign {
          width := width - 1;
        }
        RepChar(' ', width);
        if sign {
          TxChar('-');
        }
      }
      ghost var before := out;
      PrintDigits(v, p, f.base, f.upper, count);
      FieldParts(old(out), before, out, f, word);
    }
  }

  // ------------------------------------------------------------- the small printf's %x

  /** The hexadecimal digit of v at `shift` bits: a mask of four ones and a shift. */
  function Nibble(v: u32, shift: nat): nat
    requires shift <= 28
  {
    PowPositive(2, shift);
    (v / Pow(2, shift)) % 16
  }

  /** The value of the digits of v from place k up. */
  ghost function Above(v: u32, k: nat): nat {
    PowPositive(16, k);
    v / Pow(16, k)
  }

  lemma {:induction false} PowPositive(base: nat, k: nat)
    requires base >= 1
    ensures Pow(base, k) >= 1
  {
    if k > 0 {
      PowPositive(base, k - 1);
      ScaleUp(1, Pow(base, k - 1), base);
    }
  }

  lemma {:induction false} FourBits(k: nat)
    ensures Pow(2, 4 * k) == Pow(16, k)
  {
    if k > 0 {
      FourBits(k - 1);
      var n := 4 * k;
      assert Pow(2, n) == Pow(2, n - 1) * 2 && Pow(2, n - 1) == Pow(2, n - 2) * 2;
      assert Pow(2, n - 2) == Pow(2, n - 3) * 2 && Pow(2, n - 3) == Pow(2, n - 4) * 2;
    }
  }

  /** Dividing in two steps. */
  lemma DivTwice(v: nat, p: nat, b: nat)
    requires p >= 1 && b >= 1
    ensures p * b >= 1 && (v / p) / b == v / (p * b)
  {
    var q := v / p;
    var t := q / b;
    DivMod(v, p);
    DivMod(q, b);
    ScaleUp(1, b, p);
    assert p * b >= 1;
    assert t * (p * b) == (t * b) * p;
    ScaleOrder(p, t * b, q);
    ScaleOrder(p, q + 1, t * b + b);
    assert p * (q + 1) == q * p + p && p * (t * b + b) == (t * b) * p + p * b && p * (t * b) == (t * b) * p && p * q == q * p;
    QuotientIs(v, p * b, t);
  }

  lemma NibbleExtends(v: u32, k: nat)
    requires k <= 7
    ensures Above(v, k) == Above(v, k + 1) * 16 + Nibble(v, 4 * k) && Nibble(v, 4 * k) < 16
    ensures Above(v, 0) == v && Above(v, 8) == 0
  {
    FourBits(k);
    PowPositive(16, k);
    DivTwice(v, Pow(16, k), 16);
    DivMod(Above(v, k), 16);
    assert Pow(16, 4) == 0x1_0000;
    assert Pow(16, 8) == TWO_32 by { assert Pow(16, 5) == 0x10_0000 && Pow(16, 7) == 0x1000_0000; }
  }

  /** %x of the small printf prints what %x without padding prints in the log. */
  lemma SameHex(v: u32, f: Format)
    requires f.base == 16 && !f.signed && !f.leadingZero && !f.upper && f.width <= 1
    ensures AreDigits(Numeral(v, 16), 16) && Field(f, v) == Text(Numeral(v, 16), false)
  {
  }

  lemma NothingPrinted(out: string, upper: bool)
    ensures AreDigits([], 16) && out + Text([], upper) == out
  {
  }

  lemma AtLeastOne(v: nat, p: nat)
    requires 1 <= p <= v
    ensures v / p >= 1
  {
  }

  lemma FieldParts(start: string, before: string, after: string, f: Format, word: u32)
    requires ValidBase(f.base)
    requires var ds := Numeral(Abs(Meaning(f, word)), f.base);
             && AreDigits(ds, 16) && after == before + Text(ds, f.upper)
             && var sign := if Negative(f, word) then "-" else "";
                var pad := Max(f.width - |ds| - |sign|, 0);
                before == if f.leadingZero then (start + sign) + Repeat('0', pad) else (start + Repeat(' ', pad)) + sign
    ensures after == start + Field(f, word)
  {
    hide Numeral, Text, Repeat;
    var digits := Text(Numeral(Abs(Meaning(f, word)), f.base), f.upper);
    var sign := if Negative(f, word) then "-" else "";
    var pad := Max(f.width - |digits| - |sign|, 0);
    if f.leadingZero {
      assert ((start + sign) + Repeat('0', pad)) + digits == start + (sign + (Repeat('0', pad) + digits));
    } else {
      assert ((start + Repeat(' ', pad)) + sign) + digits == start + (Repeat(' ', pad) + (sign + digits));
    }
  }
}
