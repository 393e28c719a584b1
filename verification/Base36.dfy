/**
Hash ids: a few leading bytes of a hash, written as a base-36 number of fixed
length. The bytes kept depend on the length by a table.
*/
module Base36 {

  newtype byte = x: int | 0 <= x < 256

  const ALPHABET := "0123456789abcdefghijklmnopqrstuvwxyz"

  function Pow(b: nat, n: nat): (p: nat)
    ensures b > 0 ==> p > 0
  {
    if n == 0 then 1 else b * Pow(b, n - 1)
  }

  /** Modulo 36^length. */
  function Modulo(n: nat, length: nat): nat {
    n % Pow(36, length)
  }

  /** SetBytes: big-endian. */
  function BigEndian(data: seq<byte>): nat {
    if data == [] then 0 else BigEndian(data[..|data| - 1]) * 256 + data[|data| - 1] as nat
  }

  predicate IsDigit(c: char) {
    '0' <= c <= '9' || 'a' <= c <= 'z'
  }

  function Digit(c: char): (d: nat)
    requires IsDigit(c)
    ensures d < 36
  {
    if c <= '9' then c as nat - '0' as nat else c as nat - 'a' as nat + 10
  }

  predicate IsNumeral(s: string) {
    forall i | 0 <= i < |s| :: IsDigit(s[i])
  }

  /** The number that a numeral denotes. */
  function Value(s: string): nat
    requires IsNumeral(s)
  {
    if s == "" then 0 else Value(s[..|s| - 1]) * 36 + Digit(s[|s| - 1])
  }

  lemma AlphabetDigits(d: nat)
    requires d < 36
    ensures IsDigit(ALPHABET[d]) && Digit(ALPHABET[d]) == d
  {
  }

  lemma ValueAppend(s: string, c: char)
    requires IsNumeral(s) && IsDigit(c)
    ensures IsNumeral(s + [c]) && Value(s + [c]) == Value(s) * 36 + Digit(c)
  {
    assert (s + [c])[..|s|] == s;
  }

  lemma Associate(x: nat, y: nat, z: nat)
    ensures x * (y * z) == x * y * z
  {
  }

  /** Another digit moves what precedes it up by one place. */
  lemma Shift(high: nat, low: nat, p: nat, d: nat)
    ensures (high * p + low) * 36 + d == high * (36 * p) + (low * 36 + d)
  {
  }

  lemma {:induction false} PowAdd(b: nat, m: nat, n: nat)
    ensures Pow(b, m + n) == Pow(b, m) * Pow(b, n)
  {
    if m > 0 {
      PowAdd(b, m - 1, n);
      Associate(b, Pow(b, m - 1), Pow(b, n));
    }
  }

  lemma {:induction false} ValueConcat(s: string, t: string)
    requires IsNumeral(s) && IsNumeral(t)
    ensures IsNumeral(s + t) && Value(s + t) == Value(s) * Pow(36, |t|) + Value(t)
  {
    if t == "" {
      assert s + t == s;
    } else {
      var u, c := t[..|t| - 1], t[|t| - 1];
      assert IsNumeral(u) && t == u + [c];
      ValueConcat(s, u);
      ValueAppend(s + u, c);
      assert s + t == s + u + [c];
      Shift(Value(s), Value(u), Pow(36, |u|), Digit(c));
    }
  }

  lemma {:induction false} ValueBelow(s: string)
    requires IsNumeral(s)
    ensures Value(s) < Pow(36, |s|)
  {
    if s != "" {
      ValueBelow(s[..|s| - 1]);
    }
  }

  /** A numeral of a given length is determined by its value. */
  lemma {:induction false} NumeralsDiffer(s: string, t: string)
    requires IsNumeral(s) && IsNumeral(t) && |s| == |t| && Value(s) == Value(t)
    ensures s == t
  {
    if s != "" {
      var a, b := s[|s| - 1], t[|t| - 1];
      NumeralsDiffer(s[..|s| - 1], t[..|t| - 1]);
      assert s == s[..|s| - 1] + [a] && t == t[..|t| - 1] + [b];
    }
  }

  lemma Times(x: nat, p: nat)
    requires x >= 1
    ensures x * p >= p
  {
  }

  lemma Multiple(k: nat, p: nat, v: nat)
    requires v < p
    ensures (k * p + v) % p == v
  {
    var q, r := (k * p + v) / p, (k * p + v) % p;
    assert q * p + r == k * p + v;
    assert (q - k) * p == v - r && (k - q) * p == r - v;
    if q > k {
      Times(q - k, p);
    } else if q < k {
      Times(k - q, p);
    }
  }

  lemma Small(n: nat, length: nat)
    requires n < Pow(36, length)
    ensures Modulo(n, length) == n
  {
    Multiple(0, Pow(36, length), n);
  }

  lemma ModuloOfSum(k: nat, n: nat, length: nat)
    requires n < Pow(36, length)
    ensures Modulo(k * Pow(36, length) + n, length) == n
  {
    Multiple(k, Pow(36, length), n);
  }

  /** The last digits of a numeral are its value modulo a power of the base. */
  lemma TailIsModulo(s: string, length: nat)
    requires IsNumeral(s) && length <= |s|
    ensures IsNumeral(s[|s| - length..]) && Value(s[|s| - length..]) == Modulo(Value(s), length)
  {
    hide Value, Pow, Modulo;
    var head, tail := s[..|s| - length], s[|s| - length..];
    assert s == head + tail;
    ValueConcat(head, tail);
    ValueBelow(tail);
    ModuloOfSum(Value(head), Value(tail), length);
  }

  lemma Zeros(n: nat, s: string)
    requires IsNumeral(s)
    ensures IsNumeral(seq(n, _ => '0') + s) && Value(seq(n, _ => '0') + s) == Value(s)
  {
    var zeros := seq(n, _ => '0');
    ZeroValue(n);
    ValueConcat(zeros, s);
  }

  lemma {:induction false} ZeroValue(n: nat)
    ensures IsNumeral(seq(n, _ => '0')) && Value(seq(n, _ => '0')) == 0
  {
    if n > 0 {
      ZeroValue(n - 1);
      assert seq(n, _ => '0')[..n - 1] == seq(n - 1, _ => '0');
    }
  }

  function Reversed(s: string): (r: string)
    ensures |r| == |s|
  {
    if s == "" then "" else Reversed(s[1..]) + [s[0]]
  }

  lemma {:induction false} ReversedSnoc(s: string, c: char)
    ensures Reversed(s + [c]) == [c] + Reversed(s)
  {
    if s != "" {
      ReversedSnoc(s[1..], c);
      assert (s + [c])[1..] == s[1..] + [c];
    }
  }

  lemma ConcatPrepend(c: char, s: string, n: nat)
    requires IsDigit(c) && IsNumeral(s) && Digit(c) == n % 36
    ensures IsNumeral([c] + s)
    ensures n / 36 * Pow(36, |s| + 1) + Value([c] + s) == n * Pow(36, |s|) + Value(s)
  {
    ValueConcat([c], s);
    assert Value([c]) == Digit(c) by {
      ValueAppend("", c);
      assert "" + [c] == [c];
    }
    PeelDigit(n, Pow(36, |s|));
  }

  lemma PeelDigit(n: nat, p: nat)
    ensures n / 36 * (36 * p) + (n % 36) * p == n * p
  {
    var q, r := n / 36, n % 36;
    assert n == q * 36 + r;
    assert (q * 36 + r) * p == q * (36 * p) + r * p;
  }

  /** While digits are peeled off, the number left and the digits so far (in reverse) make up `total`. */
  ghost predicate Peeled(total: nat, num: nat, chars: string) {
    IsNumeral(Reversed(chars)) && num * Pow(36, |chars|) + Value(Reversed(chars)) == total
  }

  lemma PeeledStart(total: nat)
    ensures Peeled(total, total, "")
  {
    assert Reversed("") == "" && Value("") == 0 && Pow(36, 0) == 1;
  }

  lemma PeeledStep(total: nat, num: nat, chars: string)
    requires Peeled(total, num, chars)
    ensures Peeled(total, num / 36, chars + [ALPHABET[num % 36]])
  {
    hide Value, Pow;
    AlphabetDigits(num % 36);
    ReversedSnoc(chars, ALPHABET[num % 36]);
    ConcatPrepend(ALPHABET[num % 36], Reversed(chars), num);
  }

  /** EncodeBase36: exactly `length` digits, whose value is the big-endian number modulo 36^length. */
  method EncodeBase36(data: seq<byte>, length: nat) returns (str: string)
    ensures |str| == length && IsNumeral(str)
    ensures Value(str) == Modulo(BigEndian(data), length)
  {
    hide Value, Pow, Modulo, Reversed, BigEndian, IsDigit;
    var num: nat := BigEndian(data);
    var chars := "";
    PeeledStart(num);
    while num > 0
      invariant Peeled(BigEndian(data), num, chars)
    {
      PeeledStep(BigEndian(data), num, chars);
      chars := chars + [ALPHABET[num % 36]];
      num := num / 36;
    }
    str := ReverseLoop(chars);
    if |str| < length {
      Zeros(length - |str|, str);
      str := seq(length - |str|, _ => '0') + str;
    }
    TailIsModulo(str, length);
    if |str| > length {
      str := str[|str| - length..];
    } else {
      assert str[|str| - length..] == str;
    }
  }

  method ReverseLoop(chars: string) returns (str: string)
    ensures str == Reversed(chars)
  {
    str := "";
    var i := |chars| - 1;
    assert chars[..i + 1] == chars;
    while i >= 0
      invariant -1 <= i < |chars| && str + Reversed(chars[..i + 1]) == Reversed(chars)
    {
      ReversedSnoc(chars[..i], chars[i]);
      assert chars[..i + 1] == chars[..i] + [chars[i]];
      str := str + [chars[i]];
      i := i - 1;
    }
  }

  /** The numeral that EncodeBase36 returns: there is only one of that length and value. */
  function Encoded(n: nat, length: nat): (s: string)
    ensures |s| == length
  {
    if length == 0 then "" else Encoded(n / 36, length - 1) + [ALPHABET[n % 36]]
  }

  lemma DivModSplit(n: nat, p: nat)
    requires p > 0
    ensures n / 36 % p * 36 + n % 36 == n % (36 * p)
  {
    var q, r := n / 36 / p, n / 36 % p;
    assert n / 36 == q * p + r;
    assert n == (q * p + r) * 36 + n % 36;
    assert (q * p + r) * 36 == q * (36 * p) + r * 36;
    Multiple(q, 36 * p, r * 36 + n % 36);
  }

  lemma {:induction false} EncodedValue(n: nat, length: nat)
    ensures IsNumeral(Encoded(n, length)) && Value(Encoded(n, length)) == Modulo(n, length)
  {
    if length > 0 {
      EncodedValue(n / 36, length - 1);
      AlphabetDigits(n % 36);
      ValueAppend(Encoded(n / 36, length - 1), ALPHABET[n % 36]);
      DivModSplit(n, Pow(36, length - 1));
    }
  }

  // ----- ids from hashes -----

  function NumBytes(length: nat): nat {
    match length
    case 3 => 2
    case 4 => 3
    case 5 => 4
    case 6 => 4
    case 7 => 5
    case 8 => 5
    case _ => 3
  }

  method GenerateHashID(prefix: string, hash: seq<byte>, length: nat) returns (id: string)
    requires |hash| == 32
    ensures id == prefix + "-" + Suffix(hash[..NumBytes(length)], length)
  {
    var shortHash := EncodeBase36(hash[..NumBytes(length)], length);
    EncodedValue(BigEndian(hash[..NumBytes(length)]), length);
    NumeralsDiffer(shortHash, Suffix(hash[..NumBytes(length)], length));
    id := prefix + "-" + shortHash;
  }

  function Suffix(data: seq<byte>, length: nat): string {
    Encoded(BigEndian(data), length)
  }

  /** The first byte weighs most: the number is its value in front of the rest's. */
  lemma {:induction false} BigEndianHead(first: byte, rest: seq<byte>)
    ensures BigEndian([first] + rest) == first as nat * Pow(256, |rest|) + BigEndian(rest)
  {
    if rest == [] {
      assert [first] + rest == [first] && [first][..0] == [];
    } else {
      var front, last := rest[..|rest| - 1], rest[|rest| - 1];
      BigEndianHead(first, front);
      assert ([first] + rest)[..|rest|] == [first] + front;
      Regroup(first as nat, Pow(256, |front|), BigEndian(front), last as nat);
    }
  }

  lemma Regroup(x: nat, p: nat, y: nat, z: nat)
    ensures (x * p + y) * 256 + z == x * (256 * p) + (y * 256 + z)
  {
  }

  /** The k-th digit from the right is the k-th digit of the number, written 0 to 9 and then a to z. */
  lemma {:induction false} EncodedDigit(n: nat, length: nat, k: nat)
    requires k < length
    ensures var d := n / Pow(36, k) % 36;
            Encoded(n, length)[length - 1 - k] == if d < 10 then '0' + d as char else 'a' + (d - 10) as char
  {
    if k == 0 {
      assert Pow(36, 0) == 1 && n / 1 == n;
      AlphabetChar(n % 36);
    } else {
      EncodedDigit(n / 36, length - 1, k - 1);
      DivDiv(n, Pow(36, k - 1));
    }
  }

  lemma AlphabetChar(d: nat)
    requires d < 36
    ensures ALPHABET[d] == if d < 10 then '0' + d as char else 'a' + (d - 10) as char
  {
  }

  lemma DivDiv(n: nat, p: nat)
    requires p > 0
    ensures n / 36 / p == n / (36 * p)
  {
    var q, r := n / 36 / p, n / 36 % p;
    assert n / 36 == q * p + r;
    var low := r * 36 + n % 36;
    assert n == (q * p + r) * 36 + n % 36;
    assert (q * p + r) * 36 == q * (36 * p) + r * 36;
    assert r * 36 <= (p - 1) * 36 && (p - 1) * 36 == 36 * p - 36;
    Quotient(q, 36 * p, low);
  }

  lemma Quotient(q: nat, p: nat, r: nat)
    requires r < p
    ensures (q * p + r) / p == q
  {
    Multiple(q, p, r);
    var k := (q * p + r) / p;
    assert q * p + r == k * p + (q * p + r) % p;
    assert (k - q) * p == 0;
  }

  lemma {:induction false} BigEndianBelow(data: seq<byte>)
    ensures BigEndian(data) < Pow(256, |data|)
  {
    if data != [] {
      BigEndianBelow(data[..|data| - 1]);
    }
  }

  lemma {:induction false} BigEndianInjective(a: seq<byte>, b: seq<byte>)
    requires |a| == |b| && BigEndian(a) == BigEndian(b)
    ensures a == b
  {
    if a != [] {
      BigEndianInjective(a[..|a| - 1], b[..|b| - 1]);
      assert a == a[..|a| - 1] + [a[|a| - 1]] && b == b[..|b| - 1] + [b[|b| - 1]];
    }
  }

  lemma {:induction false} BytesOf(n: nat, k: nat) returns (data: seq<byte>)
    requires n < Pow(256, k)
    ensures |data| == k && BigEndian(data) == n
  {
    if k == 0 {
      data := [];
    } else {
      var high := BytesOf(n / 256, k - 1);
      data := high + [(n % 256) as byte];
      assert data[..k - 1] == high;
    }
  }

  /** Two byte strings get one suffix exactly when their numbers agree modulo 36^length. */
  lemma SameSuffix(a: seq<byte>, b: seq<byte>, length: nat)
    ensures Suffix(a, length) == Suffix(b, length) <==>
              Modulo(BigEndian(a), length) == Modulo(BigEndian(b), length)
  {
    EncodedValue(BigEndian(a), length);
    EncodedValue(BigEndian(b), length);
    if Modulo(BigEndian(a), length) == Modulo(BigEndian(b), length) {
      NumeralsDiffer(Suffix(a, length), Suffix(b, length));
    }
  }

  ghost predicate Injective(bytes: nat, length: nat) {
    forall a: seq<byte>, b: seq<byte> | |a| == bytes && |b| == bytes && Suffix(a, length) == Suffix(b, length) :: a == b
  }

  /** Distinct byte strings get distinct suffixes exactly when there are no more byte strings than suffixes. */
  lemma InjectiveIffRoom(bytes: nat, length: nat)
    ensures Injective(bytes, length) <==> Pow(256, bytes) <= Pow(36, length)
  {
    if Pow(256, bytes) <= Pow(36, length) {
      forall a: seq<byte>, b: seq<byte> | |a| == bytes && |b| == bytes && Suffix(a, length) == Suffix(b, length)
        ensures a == b
      {
        SameSuffix(a, b, length);
        BigEndianBelow(a);
        BigEndianBelow(b);
        Small(BigEndian(a), length);
        Small(BigEndian(b), length);
        BigEndianInjective(a, b);
      }
    } else {
      var a := BytesOf(0, bytes);
      var b := BytesOf(Pow(36, length), bytes);
      ModuloOfSum(1, 0, length);
      Small(0, length);
      SameSuffix(a, b, length);
      assert a != b;
    }
  }

  lemma {:induction false} PowGrows(b: nat, m: nat, n: nat)
    requires b > 0 && m <= n
    ensures Pow(b, m) <= Pow(b, n)
  {
    PowAdd(b, m, n - m);
    assert Pow(b, m) * 1 <= Pow(b, m) * Pow(b, n - m);
  }

  /** Under the width table, truncated hashes keep distinct suffixes from length 8 on, and collide at every shorter length. */
  lemma WidthTable(length: nat)
    ensures Injective(NumBytes(length), length) <==> length >= 8
  {
    InjectiveIffRoom(NumBytes(length), length);
    SmallPowers();
    if length > 8 {
      PowGrows(36, 8, length);
    }
  }

  /**
  The table keeps no byte more than it takes to reach every suffix of lengths 3 to
  7; at 8 it keeps one fewer, and at the lengths it does not name it keeps three.
  */
  lemma WidthsAreLeast(length: nat)
    ensures 3 <= length <= 7 ==> Pow(256, NumBytes(length) - 1) < Pow(36, length) <= Pow(256, NumBytes(length))
    ensures length == 8 ==> Pow(256, NumBytes(length)) < Pow(36, length) <= Pow(256, NumBytes(length) + 1)
    ensures length < 3 || length > 8 ==> NumBytes(length) == 3
  {
    SmallPowers();
  }

  lemma SmallPowers()
    ensures Pow(256, 2) == 0x1_0000 && Pow(256, 3) == 0x100_0000
    ensures Pow(256, 4) == 0x1_0000_0000 && Pow(256, 5) == 0x100_0000_0000
    ensures Pow(36, 0) == 1 && Pow(36, 1) == 36 && Pow(36, 2) == 1296 && Pow(36, 3) == 46656
    ensures Pow(36, 4) == 1679616 && Pow(36, 5) == 60466176 && Pow(36, 6) == 2176782336
    ensures Pow(36, 7) == 78364164096 && Pow(36, 8) == 2821109907456
  {
    var a0 := Pow(256, 0);
    var a1 := Pow(256, 1);
    var a2 := Pow(256, 2);
    var a3 := Pow(256, 3);
    var a4 := Pow(256, 4);
    var b0, b1, b2, b3, b4 := Pow(36, 0), Pow(36, 1), Pow(36, 2), Pow(36, 3), Pow(36, 4);
    var b5, b6, b7 := Pow(36, 5), Pow(36, 6), Pow(36, 7);
  }
}
