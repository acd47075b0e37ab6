/**
 * `SecureRandom` as an oracle, and `generate_random_password`.
 * The oracle is a fixed stream of decimal digits and a fixed stream of tokens;
 * each draw takes the next element, so a run is determined by the streams and
 * by how many elements were drawn before it.
 */
module Entropy {
  import opened Records

  /** What `SecureRandom.random_number(10)` returns. */
  type Digit = d: int | 0 <= d <= 9

  /** The random source: two infinite streams and the number of draws so far from each. */
  class RandomSource {
    const digitAt: nat -> Digit
    const tokenAt: nat -> Token
    var digitsDrawn: nat
    var tokensDrawn: nat

    constructor (digitAt: nat -> Digit, tokenAt: nat -> Token)
      ensures this.digitAt == digitAt && this.tokenAt == tokenAt
      ensures digitsDrawn == 0 && tokensDrawn == 0
    {
      this.digitAt := digitAt;
      this.tokenAt := tokenAt;
      digitsDrawn := 0;
      tokensDrawn := 0;
    }

    /** `SecureRandom.random_number(10)`: the next digit of the stream. */
    method RandomNumber10() returns (d: Digit)
      modifies this
      ensures d == digitAt(old(digitsDrawn))
      ensures digitsDrawn == old(digitsDrawn) + 1 && tokensDrawn == old(tokensDrawn)
    {
      d := digitAt(digitsDrawn);
      digitsDrawn := digitsDrawn + 1;
    }

    /** `SecureRandom.urlsafe_base64`: the next token of the stream. */
    method UrlsafeBase64() returns (t: Token)
      modifies this
      ensures t == tokenAt(old(tokensDrawn))
      ensures tokensDrawn == old(tokensDrawn) + 1 && digitsDrawn == old(digitsDrawn)
    {
      t := tokenAt(tokensDrawn);
      tokensDrawn := tokensDrawn + 1;
    }
  }

  /** The number of iterations of `length.times`: none for a negative length. */
  function Times(length: int): nat {
    if length > 0 then length else 0
  }

  /** The `n` digits a source yields from position `from` on. */
  function Draws(digitAt: nat -> Digit, from: nat, n: nat): seq<Digit> {
    seq(n, i requires 0 <= i < n => digitAt(from + i))
  }

  /** `Integer#to_s` on one decimal digit. */
  function DigitChar(d: Digit): (ch: char)
    ensures '0' <= ch <= '9'
    ensures ch as int - '0' as int == d
  {
    ('0' as int + d) as char
  }

  /** `Array#join` on a list of digits: one character per digit, in order. */
  function Join(ds: seq<Digit>): (s: string)
    ensures |s| == |ds|
    ensures forall i :: 0 <= i < |ds| ==> s[i] == DigitChar(ds[i])
  {
    if ds == [] then "" else [DigitChar(ds[0])] + Join(ds[1..])
  }

  /** `generate_random_password(length)`: `length.times.map { random_number(10) }.join`. */
  method GenerateRandomPassword(length: int, rng: RandomSource) returns (password: string)
    modifies rng
    ensures password == Join(Draws(rng.digitAt, old(rng.digitsDrawn), Times(length)))
    ensures rng.digitsDrawn == old(rng.digitsDrawn) + Times(length)
    ensures rng.tokensDrawn == old(rng.tokensDrawn)
  {
    var n := Times(length);
    var digits: seq<Digit> := [];
    var i := 0;
    while i < n
      invariant 0 <= i <= n
      invariant rng.digitsDrawn == old(rng.digitsDrawn) + i
      invariant rng.tokensDrawn == old(rng.tokensDrawn)
      invariant digits == Draws(rng.digitAt, old(rng.digitsDrawn), i)
    {
      var d := rng.RandomNumber10();
      digits := digits + [d];
      i := i + 1;
    }
    password := Join(digits);
  }

  /** A generated password has exactly `length` characters (none when negative), each a decimal digit. */
  lemma PasswordShape(digitAt: nat -> Digit, from: nat, length: int)
    ensures var p := Join(Draws(digitAt, from, Times(length)));
      && |p| == (if length > 0 then length else 0)
      && (forall i :: 0 <= i < |p| ==> '0' <= p[i] <= '9')
      && (forall i :: 0 <= i < |p| ==> p[i] as int - '0' as int == digitAt(from + i))
  {
  }

  /** `length` zeros. */
  function Zeros(n: nat): string {
    seq(n, i => '0')
  }

  /** A source that always yields 0 gives `'0' * length`. */
  lemma ZeroSourceGivesZeros(digitAt: nat -> Digit, from: nat, length: nat)
    requires forall i :: digitAt(i) == 0
    ensures Join(Draws(digitAt, from, length)) == Zeros(length)
  {
    var p := Join(Draws(digitAt, from, length));
    assert forall i :: 0 <= i < length ==> p[i] == DigitChar(digitAt(from + i)) == '0';
  }

  /** Different digit streams give different passwords: the password determines the digits drawn. */
  lemma JoinInjective(a: seq<Digit>, b: seq<Digit>)
    requires Join(a) == Join(b)
    ensures a == b
  {
    assert |a| == |b|;
    forall i | 0 <= i < |a| ensures a[i] == b[i] {
      assert DigitChar(a[i]) == Join(a)[i] == Join(b)[i] == DigitChar(b[i]);
    }
  }
}
