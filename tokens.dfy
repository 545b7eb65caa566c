/**
 * `generate_token(length=32)`: a string of `length` characters, each picked from
 * `string.ascii_letters + string.digits`. The random source (`secrets.choice`) is
 * a parameter: `draws[i]` is the index of the character picked at position i.
 */
module Tokens {

  const DefaultLength: nat := 32

  /** `string.ascii_lowercase`, `string.ascii_uppercase` and `string.digits`. */
  const Lowercase: string := "abcdefghijklmnopqrstuvwxyz"
  const Uppercase: string := "ABCDEFGHIJKLMNOPQRSTUVWXYZ"
  const Digits: string := "0123456789"

  /** `string.ascii_letters + string.digits`. */
  const Alphabet: string := Lowercase + Uppercase + Digits

  predicate IsAlphanumeric(c: char) {
    ('a' <= c <= 'z') || ('A' <= c <= 'Z') || ('0' <= c <= '9')
  }

  /** A string generate_token(length) can return. */
  predicate IsToken(t: string, length: nat) {
    |t| == length && forall i :: 0 <= i < |t| ==> IsAlphanumeric(t[i])
  }

  /** A sequence of picks the random source can supply for a token of `length` characters. */
  predicate IsDraw(draws: seq<nat>, length: nat) {
    |draws| == length && forall i :: 0 <= i < |draws| ==> draws[i] < |Alphabet|
  }

  /** The alphabet lists the letters and the digits in code-point order. */
  lemma AlphabetAt(k: nat)
    requires k < 62
    ensures |Alphabet| == 62
    ensures k < 26 ==> Alphabet[k] == ('a' as int + k) as char
    ensures 26 <= k < 52 ==> Alphabet[k] == ('A' as int + (k - 26)) as char
    ensures 52 <= k ==> Alphabet[k] == ('0' as int + (k - 52)) as char
  {
    if k < 26 {
      assert Alphabet[k] == Lowercase[k];
    } else if k < 52 {
      assert Alphabet[k] == Uppercase[k - 26];
    } else {
      assert Alphabet[k] == Digits[k - 52];
    }
  }

  /** Position of an alphanumeric character in the alphabet. */
  function IndexOf(c: char): (k: nat)
    requires IsAlphanumeric(c)
    ensures k < |Alphabet| && Alphabet[k] == c
  {
    var k := if 'a' <= c <= 'z' then c as int - 'a' as int
    else if 'A' <= c <= 'Z' then 26 + (c as int - 'A' as int)
    else 52 + (c as int - '0' as int);
    AlphabetAt(k);
    k
  }

  /** The alphabet is 62 characters, all of them ASCII letters or digits. */
  lemma AlphabetIsAlphanumeric()
    ensures |Alphabet| == 62
    ensures forall k :: 0 <= k < |Alphabet| ==> IsAlphanumeric(Alphabet[k])
  {
    AlphabetAt(0);
    forall k | 0 <= k < |Alphabet| ensures IsAlphanumeric(Alphabet[k]) {
      AlphabetAt(k);
    }
  }

  function GenerateToken(length: nat, draws: seq<nat>): (t: string)
    requires IsDraw(draws, length)
    ensures IsToken(t, length)
  {
    AlphabetIsAlphanumeric();
    seq(length, i requires 0 <= i < length => Alphabet[draws[i]])
  }

  /** Conversely, every alphanumeric string of the length is a possible token. */
  lemma EveryTokenIsGenerable(t: string, length: nat)
    requires IsToken(t, length)
    ensures exists draws :: IsDraw(draws, length) && GenerateToken(length, draws) == t
  {
    var draws := seq(length, i requires 0 <= i < length => IndexOf(t[i]));
    assert IsDraw(draws, length);
    assert GenerateToken(length, draws) == t;
  }
}
