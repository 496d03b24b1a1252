/**
 * The character mapping of `randomString` in wechat-notify-mailer.go, which
 * makes the `SignatureNonce` of a request: a buffer of random bytes is
 * rewritten in place, each byte replaced by the character of a 62-letter
 * alphabet that the byte, taken modulo 62, selects.
 *
 * Where the bytes come from (`rand.Seed` with the clock, then `rand.Read`)
 * is left out: the bytes are a parameter.
 */
module Nonce {
  import opened GoText

  const Digits: string := "0123456789"
  const Upper: string := "ABCDEFGHIJKLMNOPQRSTUVWXYZ"
  const Lower: string := "abcdefghijklmnopqrstuvwxyz"

  /** The alphabet of `randomString`: the digits, then the upper-case and the lower-case letters. */
  const Alphanum: string := Digits + Upper + Lower

  /** An ASCII letter or digit. */
  predicate IsAlphanumeric(c: char) {
    '0' <= c <= '9' || 'A' <= c <= 'Z' || 'a' <= c <= 'z'
  }

  /** The alphabet in closed form: its `k`-th letter, as three ranges. */
  function Letter(k: nat): (c: char)
    requires k < 62
    ensures IsAlphanumeric(c)
  {
    if k < 10 then ('0' as int + k) as char
    else if k < 36 then ('A' as int + k - 10) as char
    else ('a' as int + k - 36) as char
  }

  /** The alphabet is the three ranges in order. */
  lemma AlphanumAt(k: nat)
    requires k < 62
    ensures |Alphanum| == 62 && Alphanum[k] == Letter(k)
  {
    if k < 10 {
      assert Digits == seq(10, i requires 0 <= i < 10 => ('0' as int + i) as char);
      assert Alphanum[k] == Digits[k];
    } else if k < 36 {
      assert Upper == seq(26, i requires 0 <= i < 26 => ('A' as int + i) as char);
      assert Alphanum[k] == Upper[k - 10];
    } else {
      assert Lower == seq(26, i requires 0 <= i < 26 => ('a' as int + i) as char);
      assert Alphanum[k] == Lower[k - 36];
    }
  }

  /** Where a letter or digit sits in the alphabet. */
  function Position(c: char): (k: nat)
    requires IsAlphanumeric(c)
    ensures k < 62
  {
    if c <= '9' then c as int - '0' as int
    else if c <= 'Z' then c as int - 'A' as int + 10
    else c as int - 'a' as int + 36
  }

  /** `Position` inverts `Letter`. */
  lemma LetterPosition(c: char, k: nat)
    requires k < 62
    ensures Letter(k) == c <==> IsAlphanumeric(c) && k == Position(c)
  {
  }

  /**
   * The alphabet holds exactly the letters and digits, each once: position
   * `k` holds `c` if and only if `c` is a letter or digit and `k` is its
   * position. So every letter and digit is produced by the byte whose value
   * is its position.
   */
  lemma PositionSpec(c: char, k: nat)
    requires k < 62
    ensures Alphanum[k] == c <==> IsAlphanumeric(c) && k == Position(c)
  {
    AlphanumAt(k);
    LetterPosition(c, k);
  }

  /**
   * `randomString(n)` with the `n` random bytes given: the buffer holding them
   * is rewritten byte by byte, `bytes[i] = alphanum[bytes[i] % 62]`, and
   * returned as a string of the same length.
   */
  method RandomString(random: seq<Byte>) returns (s: string)
    ensures |s| == |random|
    ensures forall i :: 0 <= i < |s| ==> s[i] == Alphanum[random[i] as int % 62]
    ensures forall i :: 0 <= i < |s| ==> IsAlphanumeric(s[i])
  {
    var bytes := new char[|random|](i requires 0 <= i < |random| => random[i]);
    for i := 0 to bytes.Length
      invariant forall j :: 0 <= j < i ==> bytes[j] == Alphanum[random[j] as int % 62]
      invariant forall j :: i <= j < bytes.Length ==> bytes[j] == random[j]
    {
      bytes[i] := Alphanum[bytes[i] as int % 62];
    }
    s := bytes[..];
    forall i | 0 <= i < |s| ensures IsAlphanumeric(s[i]) {
      AlphanumAt(random[i] as int % 62);
    }
  }
}
