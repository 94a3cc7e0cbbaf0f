/**
 Decimal text of jsoncpp's 64-bit integers: the printer that fills a fixed buffer from its
 end, and the decoder that decides between an integer and a double.
 */
module JsonNumber {
  import opened JsonValue

  const MAX_INT := 0x7FFF_FFFF
  const MAX_LARGEST_INT := 0x7FFF_FFFF_FFFF_FFFF
  const MAX_LARGEST_UINT := 0xFFFF_FFFF_FFFF_FFFF
  /** 3 * sizeof(uint64) + 1 */
  const BUFFER_SIZE := 25

  predicate IsDigit(c: char) {
    '0' <= c <= '9'
  }

  function DigitChar(d: nat): char
    requires d < 10
  {
    '0' + d as char
  }

  /** Decimal text of a natural number, without leading zeros. */
  function Digits(n: nat): (s: string)
    ensures |s| > 0
  {
    if n < 10 then [DigitChar(n)] else Digits(n / 10) + [DigitChar(n % 10)]
  }

  function IntText(n: int): string {
    if n < 0 then "-" + Digits(-n) else Digits(n)
  }

  predicate AllDigits(s: string) {
    forall i :: 0 <= i < |s| ==> IsDigit(s[i])
  }

  function DigitsValue(s: string): nat
    requires AllDigits(s)
  {
    if s == [] then 0 else DigitsValue(s[..|s| - 1]) * 10 + (s[|s| - 1] as int - '0' as int)
  }

  lemma {:induction false} DigitsInverse(n: nat)
    ensures AllDigits(Digits(n)) && DigitsValue(Digits(n)) == n
  {
    if n >= 10 {
      DigitsInverse(n / 10);
      var s := Digits(n);
      assert s[..|s| - 1] == Digits(n / 10);
    } else {
      assert Digits(n)[..0] == [];
    }
  }

  function Pow10(k: nat): nat {
    if k == 0 then 1 else 10 * Pow10(k - 1)
  }

  lemma {:induction false} DigitsLength(n: nat, k: nat)
    requires k > 0 && n < Pow10(k)
    ensures |Digits(n)| <= k
  {
    if n >= 10 {
      assert Pow10(1) == 10;
      DigitsLength(n / 10, k - 1);
    }
  }

  lemma TwentyDigits()
    ensures MAX_LARGEST_UINT < Pow10(20)
  {
    assert Pow10(5) == 100000 by { assert Pow10(2) == 100; }
    assert Pow10(10) == 10000000000 by { assert Pow10(7) == 10000000; }
    assert Pow10(15) == 1000000000000000 by { assert Pow10(12) == 1000000000000; }
    assert Pow10(20) == 100000000000000000000 by { assert Pow10(17) == 100000000000000000; }
  }

  /** Writes a terminating NUL and the digits of value below position `start`. */
  method UIntToString(value: nat, buffer: array<char>, start: nat) returns (current: nat)
    requires value <= MAX_LARGEST_UINT && start <= buffer.Length
    requires |Digits(value)| + 1 <= start
    modifies buffer
    ensures current == start - 1 - |Digits(value)|
    ensures buffer[current..start - 1] == Digits(value) && buffer[start - 1] == 0 as char
  {
    current := start - 1;
    buffer[current] := 0 as char;
    var v := value;
    assert Digits(value) == Digits(v) + buffer[current..start - 1];
    while v >= 10
      invariant current <= start - 1 && |Digits(v)| <= current
      invariant Digits(value) == Digits(v) + buffer[current..start - 1]
      invariant buffer[start - 1] == 0 as char
    {
      ghost var done := buffer[current..start - 1];
      current := current - 1;
      buffer[current] := DigitChar(v % 10);
      assert buffer[current..start - 1] == [DigitChar(v % 10)] + done;
      v := v / 10;
    }
    ghost var done := buffer[current..start - 1];
    current := current - 1;
    buffer[current] := DigitChar(v % 10);
    assert buffer[current..start - 1] == [DigitChar(v)] + done;
  }

  /** Text of an integer; the buffer is always large enough. */
  method ValueToString(value: int) returns (text: string)
    requires -MAX_LARGEST_INT - 1 <= value <= MAX_LARGEST_UINT
    ensures text == IntText(value)
  {
    var buffer := new char[BUFFER_SIZE](_ => ' ');
    var magnitude := if value < 0 then -value else value;
    TwentyDigits();
    DigitsLength(magnitude, 20);
    var current := UIntToString(magnitude, buffer, BUFFER_SIZE);
    if value < 0 {
      current := current - 1;
      buffer[current] := '-';
      assert buffer[current..BUFFER_SIZE - 1] == ['-'] + buffer[current + 1..BUFFER_SIZE - 1];
    }
    text := buffer[current..BUFFER_SIZE - 1];
  }

  // ----- decoding

  datatype Decoded = Integer(value: Value) | AsDouble

  /** The type an integer is stored with: int when it fits an int or is negative, else unsigned. */
  function IntegerValue(n: int): Value {
    if n <= MAX_INT then Int(n) else UInt(n)
  }

  function Limit(negative: bool): nat {
    if negative then MAX_LARGEST_INT + 1 else MAX_LARGEST_UINT
  }

  predicate Negative(token: string) {
    token != [] && token[0] == '-'
  }

  function Magnitude(token: string): string {
    if Negative(token) then token[1..] else token
  }

  /** A number token is an integer exactly when it has no other characters and its value fits. */
  function DecodeInteger(token: string): Decoded {
    var digits := Magnitude(token);
    if AllDigits(digits) && DigitsValue(digits) <= Limit(Negative(token))
    then
      var n: int := DigitsValue(digits);
      Integer(IntegerValue(if Negative(token) then -n else n))
    else AsDouble
  }

  lemma {:induction false} ValueGrows(s: string, k: nat)
    requires AllDigits(s) && k <= |s|
    ensures DigitsValue(s[..k]) <= DigitsValue(s)
    ensures k < |s| ==> DigitsValue(s[..k]) * 10 <= DigitsValue(s)
    decreases |s|
  {
    if k == |s| {
      assert s[..k] == s;
    } else {
      var t := s[..|s| - 1];
      ValueGrows(t, k);
      assert t[..k] == s[..k];
    }
  }

  /** Passing the threshold anywhere but exactly at a small enough last digit means too large a value. */
  lemma TooLarge(digits: string, k: nat, max: nat)
    requires AllDigits(digits) && k < |digits| && max >= 10
    requires var value := DigitsValue(digits[..k]);
             value > max / 10 || (value == max / 10 && (k + 1 != |digits| || digits[k] as int - '0' as int > max % 10))
    ensures DigitsValue(digits) > max
  {
    assert digits[..k + 1][..k] == digits[..k];
    ValueGrows(digits, k + 1);
    assert digits[..|digits|] == digits;
  }

  method DecodeNumber(token: string) returns (r: Decoded)
    ensures r == DecodeInteger(token)
  {
    var negative := Negative(token);
    ghost var digits := Magnitude(token);
    var current := if negative then 1 else 0;
    ghost var start := current;
    var max := Limit(negative);
    var threshold := max / 10;
    var value: nat := 0;
    while current < |token|
      invariant start <= current <= |token|
      invariant AllDigits(digits[..current - start]) && value == DigitsValue(digits[..current - start])
      invariant value <= max
    {
      var c := token[current];
      ghost var k := current - start;
      current := current + 1;
      assert digits[k] == c;
      if !IsDigit(c) {
        return AsDouble;
      }
      var digit := c as int - '0' as int;
      assert digits[..k + 1][..k] == digits[..k];
      if value >= threshold {
        if value > threshold || current != |token| || digit > max % 10 {
          if AllDigits(digits) {
            TooLarge(digits, k, max);
          }
          return AsDouble;
        }
      }
      assert value * 10 + digit <= MAX_LARGEST_UINT;
      value := value * 10 + digit;
    }
    assert digits[..current - start] == digits;
    if negative && value == max {
      r := Integer(Int(-MAX_LARGEST_INT - 1));
    } else if negative {
      r := Integer(Int(0 - value));
    } else if value <= MAX_INT {
      r := Integer(Int(value));
    } else {
      r := Integer(UInt(value));
    }
  }

  /** Decoding inverts printing for every 64-bit integer, signed or unsigned. */
  lemma PrintDecode(n: int)
    requires -MAX_LARGEST_INT - 1 <= n <= MAX_LARGEST_UINT
    ensures DecodeInteger(IntText(n)) == Integer(IntegerValue(n))
  {
    hide Digits, DigitsValue;
    var text, digits := IntText(n), Digits(if n < 0 then -n else n);
    DigitsInverse(if n < 0 then -n else n);
    if n < 0 {
      assert text[1..] == digits;
    }
    assert Negative(text) == (n < 0) && Magnitude(text) == digits;
  }
}
