/**
 * The percent-encoding `urlEncode` of wechat-notify-mailer.go and the
 * string-to-sign built from it in `sendMail`.
 *
 * `urlEncode` first rewrites its input with three `strings.Replace` calls
 * ("+" to "%20", "*" to "%2A", "%7E" to "~") and then applies
 * `url.QueryEscape`. `QueryEscape` is taken as Go documents it: letters,
 * digits and `-` `_` `.` `~` are kept, a space becomes `+`, and every other
 * byte becomes `%` and two upper-case hexadecimal digits.
 *
 * `EncodeRef` says in one pass over the input what the four steps do
 * together, and `UrlEncodeIsRef` proves that they agree: each "+" comes out
 * as "%2520", each "*" as "%252A", each "%7E" as "~", and every other byte as
 * `QueryEscape` escapes it.
 */
module Signing {
  import opened GoText

  /** A Go string: a sequence of bytes. */
  type Bytes = seq<Byte>

  /** Go's `strings.HasPrefix`. */
  predicate HasPrefix(s: Bytes, p: Bytes) {
    |p| <= |s| && s[..|p|] == p
  }

  /**
   * Go's `strings.Replace(s, pattern, with, -1)` for a non-empty `pattern`:
   * scanning from the left, each occurrence of `pattern` that does not overlap
   * an earlier replaced one is replaced by `with`.
   */
  function Replace(s: Bytes, pattern: Bytes, with: Bytes): Bytes
    requires |pattern| > 0
    decreases |s|
  {
    if |s| < |pattern| then s
    else if HasPrefix(s, pattern) then with + Replace(s[|pattern|..], pattern, with)
    else [s[0]] + Replace(s[1..], pattern, with)
  }

  /**
   * Replacing a single byte replaces every occurrence: none is left when the
   * replacement holds none, and a text without the byte is left as it is.
   */
  lemma {:induction false} ReplaceRemovesAll(s: Bytes, p: Byte, with: Bytes)
    ensures p !in with ==> p !in Replace(s, [p], with)
    ensures p !in s ==> Replace(s, [p], with) == s
    decreases |s|
  {
    if |s| >= 1 {
      ReplaceRemovesAll(s[1..], p, with);
      assert s[..1] == [s[0]];
      if p !in s {
        assert p !in s[1..] by {
          assert forall k :: 0 <= k < |s| - 1 ==> s[1..][k] == s[k + 1];
        }
        assert [s[0]] + s[1..] == s;
      }
    }
  }

  // ---------------------------------------------------------------------
  // url.QueryEscape

  /** The bytes `QueryEscape` leaves as they are. */
  predicate IsUnreserved(c: char) {
    'A' <= c <= 'Z' || 'a' <= c <= 'z' || '0' <= c <= '9' || c == '-' || c == '_' || c == '.' || c == '~'
  }

  /** An upper-case hexadecimal digit, as `QueryEscape` writes them. */
  predicate IsUpperHex(c: char) {
    '0' <= c <= '9' || 'A' <= c <= 'F'
  }

  /** The hexadecimal digit for `d`, upper case: "0123456789ABCDEF"[d]. */
  function HexDigit(d: nat): (c: Byte)
    requires d < 16
    ensures IsUpperHex(c) && IsUnreserved(c)
  {
    if d < 10 then ('0' as int + d) as char else ('A' as int + d - 10) as char
  }

  /** A byte `QueryEscape` may write: an unreserved one, '%' or '+'. */
  predicate IsEscaped(c: char) {
    IsUnreserved(c) || c == '%' || c == '+'
  }

  /**
   * What `QueryEscape` writes for one byte: the byte itself exactly when it
   * is unreserved, otherwise one or three bytes, never a reserved one.
   */
  function EscapeByte(b: Byte): (r: Bytes)
    ensures r == [b] <==> IsUnreserved(b)
    ensures |r| == 1 || |r| == 3
    ensures forall i :: 0 <= i < |r| ==> IsEscaped(r[i])
  {
    if IsUnreserved(b) then [b]
    else if b == ' ' then "+"
    else ['%', HexDigit(b as int / 16), HexDigit(b as int % 16)]
  }

  /** Go's `url.QueryEscape`: each byte escaped on its own, in order. */
  function QueryEscape(s: Bytes): (r: Bytes)
    ensures |r| >= |s|
    ensures forall i :: 0 <= i < |r| ==> IsEscaped(r[i])
  {
    if s == [] then [] else EscapeByte(s[0]) + QueryEscape(s[1..])
  }

  /** Escaping a concatenation escapes the parts. */
  lemma {:induction false} QueryEscapeAppend(a: Bytes, b: Bytes)
    ensures QueryEscape(a + b) == QueryEscape(a) + QueryEscape(b)
    decreases |a|
  {
    if a != [] {
      assert (a + b)[0] == a[0] && (a + b)[1..] == a[1..] + b;
      QueryEscapeAppend(a[1..], b);
      AppendAssoc(EscapeByte(a[0]), QueryEscape(a[1..]), QueryEscape(b));
    } else {
      assert a + b == b;
    }
  }

  // ---------------------------------------------------------------------
  // Decoding, as url.QueryUnescape does: the inverse of QueryEscape

  function HexValue(c: char): (d: nat)
    requires IsUpperHex(c) || 'a' <= c <= 'f'
    ensures d < 16
  {
    if c <= '9' then c as int - '0' as int
    else if c <= 'F' then c as int - 'A' as int + 10
    else c as int - 'a' as int + 10
  }

  /**
   * `url.QueryUnescape`: "%XY" with two hexadecimal digits (either case) is
   * the byte 16 * X + Y, "+" is a space, any other byte stands for itself;
   * a '%' without two hexadecimal digits after it is an error.
   */
  function Unescape(s: Bytes): Option<Bytes>
    decreases |s|
  {
    if s == [] then Some([])
    else if s[0] == '%' then
      if |s| < 3 || !(IsUpperHex(s[1]) || 'a' <= s[1] <= 'f') || !(IsUpperHex(s[2]) || 'a' <= s[2] <= 'f') then None
      else
        match Unescape(s[3..])
        case None => None
        case Some(t) => Some([(HexValue(s[1]) * 16 + HexValue(s[2])) as char] + t)
    else
      match Unescape(s[1..])
      case None => None
      case Some(t) => Some([if s[0] == '+' then ' ' else s[0]] + t)
  }

  lemma HexRoundTrip(d: nat)
    requires d < 16
    ensures HexValue(HexDigit(d)) == d
  {
  }

  /** Decoding the escape of one byte, then more, gives that byte back in front. */
  lemma UnescapeEscapeByte(b: Byte, rest: Bytes)
    ensures Unescape(EscapeByte(b) + rest) ==
      match Unescape(rest)
      case None => None
      case Some(t) => Some([b] + t)
  {
    var e := EscapeByte(b);
    if IsUnreserved(b) || b == ' ' {
      assert (e + rest)[0] == e[0] && (e + rest)[1..] == rest;
    } else {
      HexRoundTrip(b as int / 16);
      HexRoundTrip(b as int % 16);
      assert (e + rest)[..3] == e && (e + rest)[3..] == rest;
    }
  }

  /** `QueryEscape` loses nothing: decoding its output gives the input back. */
  lemma {:induction false} QueryEscapeRoundTrip(s: Bytes)
    ensures Unescape(QueryEscape(s)) == Some(s)
    decreases |s|
  {
    if s != [] {
      QueryEscapeRoundTrip(s[1..]);
      UnescapeEscapeByte(s[0], QueryEscape(s[1..]));
      assert [s[0]] + s[1..] == s;
    }
  }

  // ---------------------------------------------------------------------
  // urlEncode

  /**
   * `urlEncode`: the three replacements, in this order, then `QueryEscape`.
   * Its output holds only unreserved bytes, '%' and '+': no '&' and no '='.
   */
  function UrlEncode(input: Bytes): (r: Bytes)
    ensures forall i :: 0 <= i < |r| ==> IsEscaped(r[i])
  {
    QueryEscape(Replace(Replace(Replace(input, "+", "%20"), "*", "%2A"), "%7E", "~"))
  }

  /** What `urlEncode` makes of one byte that does not start a "%7E". */
  function Token(c: Byte): Bytes
  {
    if c == '+' then "%2520" else if c == '*' then "%252A" else EscapeByte(c)
  }

  /**
   * What `urlEncode` does to its input, read in one pass from the left:
   * "%7E" becomes "~", "+" becomes "%2520", "*" becomes "%252A", and any other
   * byte is escaped as `QueryEscape` escapes it.
   */
  function EncodeRef(s: Bytes): Bytes
    decreases |s|
  {
    if s == [] then []
    else if HasPrefix(s, "%7E") then "~" + EncodeRef(s[3..])
    else Token(s[0]) + EncodeRef(s[1..])
  }

  /** What the first two replacements make of one byte. */
  function PlusStarByte(c: Byte): Bytes
  {
    if c == '+' then "%20" else if c == '*' then "%2A" else [c]
  }

  /** The three replacements, read in one pass from the left. */
  function Substituted(s: Bytes): Bytes
    decreases |s|
  {
    if s == [] then []
    else if HasPrefix(s, "%7E") then "~" + Substituted(s[3..])
    else PlusStarByte(s[0]) + Substituted(s[1..])
  }

  /** The first two replacements, which both replace a single byte. */
  function PlusStar(s: Bytes): Bytes
  {
    Replace(Replace(s, "+", "%20"), "*", "%2A")
  }

  lemma AppendAssoc(a: Bytes, b: Bytes, c: Bytes)
    ensures a + (b + c) == (a + b) + c
  {
  }

  /** A prefix test on a sequence with a known first byte. */
  lemma HasPrefixCons(c: Byte, t: Bytes, p: Bytes)
    requires p != []
    ensures HasPrefix([c] + t, p) <==> c == p[0] && HasPrefix(t, p[1..])
  {
    var s := [c] + t;
    if |p| <= |s| {
      assert s[..|p|] == [c] + t[..|p| - 1];
      assert p == [p[0]] + p[1..];
    }
  }

  /** Replacing a single byte works byte by byte. */
  lemma ReplaceCons(c: Byte, t: Bytes, p: Byte, r: Bytes)
    ensures Replace([c] + t, [p], r) == (if c == p then r else [c]) + Replace(t, [p], r)
  {
    assert ([c] + t)[1..] == t;
    assert ([c] + t)[..1] == [c];
  }

  /** Replacing a single byte distributes over concatenation. */
  lemma {:induction false} ReplaceAppend(a: Bytes, b: Bytes, p: Byte, r: Bytes)
    ensures Replace(a + b, [p], r) == Replace(a, [p], r) + Replace(b, [p], r)
    decreases |a|
  {
    if a == [] {
      assert a + b == b;
    } else {
      assert a + b == [a[0]] + (a[1..] + b);
      assert a == [a[0]] + a[1..];
      ReplaceCons(a[0], a[1..] + b, p, r);
      ReplaceCons(a[0], a[1..], p, r);
      ReplaceAppend(a[1..], b, p, r);
      var h := if a[0] == p then r else [a[0]];
      AppendAssoc(h, Replace(a[1..], [p], r), Replace(b, [p], r));
    }
  }

  /**
   * Replacing a single byte lengthens the text by the replacement's extra
   * length once for each occurrence of the byte.
   */
  lemma {:induction false} ReplaceLength(s: Bytes, p: Byte, r: Bytes)
    ensures |Replace(s, [p], r)| == |s| + multiset(s)[p] * (|r| - 1)
    decreases |s|
  {
    if s != [] {
      var t: Bytes := s[1..];
      var head: Bytes := [s[0]];
      assert s == head + t;
      ReplaceCons(s[0], t, p, r);
      ReplaceLength(t, p, r);
      var n, k := multiset(t)[p], |r| - 1;
      assert multiset(s) == multiset(head) + multiset(t);
      if s[0] == p {
        assert multiset(s)[p] == n + 1;
        assert (n + 1) * k == n * k + k;
      } else {
        assert multiset(s)[p] == n;
      }
    }
  }

  /** "%20" has no "*" to replace. */
  lemma NoStarIn20()
    ensures Replace("%20", "*", "%2A") == "%20"
  {
    ReplaceCons('%', "20", '*', "%2A");
    ReplaceCons('2', "0", '*', "%2A");
    ReplaceCons('0', [], '*', "%2A");
    assert "%20" == ['%'] + "20" && "20" == ['2'] + "0" && "0" == ['0'] + [];
  }

  /** The first two replacements, byte by byte. */
  lemma PlusStarCons(c: Byte, t: Bytes)
    ensures PlusStar([c] + t) == PlusStarByte(c) + PlusStar(t)
  {
    ReplaceCons(c, t, '+', "%20");
    var head := if c == '+' then "%20" else [c];
    ReplaceAppend(head, Replace(t, "+", "%20"), '*', "%2A");
    if c == '+' {
      NoStarIn20();
    } else {
      ReplaceCons(c, [], '*', "%2A");
      assert [c] + [] == [c];
    }
  }

  lemma PlusStarEmpty()
    ensures PlusStar([]) == []
  {
  }

  /** The first byte after the first two replacements: '%' for a "+" or "*", otherwise the byte itself. */
  lemma PlusStarFirst(t: Bytes)
    requires t != []
    ensures |PlusStar(t)| > 0
    ensures PlusStar(t)[0] == if t[0] == '+' || t[0] == '*' then '%' else t[0]
  {
    PlusStarCons(t[0], t[1..]);
    assert [t[0]] + t[1..] == t;
  }

  /** After the first two replacements a "7E" can only start where the input has one. */
  lemma PlusStarHead(t: Bytes)
    ensures HasPrefix(PlusStar(t), "7E") ==> HasPrefix(t, "7E")
  {
    var e := PlusStar(t);
    if HasPrefix(e, "7E") {
      assert e[0] == '7' && e[1] == 'E' by {
        assert e[..2] == "7E";
      }
      PlusStarEmpty();
      PlusStarFirst(t);
      PlusStarCons(t[0], t[1..]);
      assert [t[0]] + t[1..] == t;
      assert e == ['7'] + PlusStar(t[1..]);
      PlusStarFirst(t[1..]);
      assert t[..2] == [t[0], t[1..][0]];
    }
  }

  /** The third replacement on a "%7E" at the front. */
  lemma ReplaceTildeFront(t: Bytes)
    ensures Replace("%7E" + t, "%7E", "~") == "~" + Replace(t, "%7E", "~")
  {
    assert ("%7E" + t)[..3] == "%7E";
    assert ("%7E" + t)[3..] == t;
  }

  /** The third replacement passes over a byte that does not start "%7E". */
  lemma ReplaceTildeSkip(c: Byte, t: Bytes)
    requires c != '%' || !HasPrefix(t, "7E")
    ensures Replace([c] + t, "%7E", "~") == [c] + Replace(t, "%7E", "~")
  {
    var s := [c] + t;
    assert s[1..] == t;
    HasPrefixCons(c, t, "%7E");
  }

  /** A byte the first two replacements leave as it is, then the rest. */
  lemma SubstitutedPlain(s: Bytes)
    requires s != [] && s[0] != '+' && s[0] != '*' && !HasPrefix(s, "%7E")
    ensures Replace(PlusStar(s), "%7E", "~") == [s[0]] + Replace(PlusStar(s[1..]), "%7E", "~")
  {
    PlusStarCons(s[0], s[1..]);
    assert [s[0]] + s[1..] == s;
    PlusStarHead(s[1..]);
    HasPrefixCons(s[0], s[1..], "%7E");
    ReplaceTildeSkip(s[0], PlusStar(s[1..]));
  }

  /** The first two replacements leave a "%7E" as it is. */
  lemma PlusStarTilde(t: Bytes)
    ensures PlusStar("%7E" + t) == "%7E" + PlusStar(t)
  {
    ReplaceAppend("%7E", t, '+', "%20");
    assert Replace("%7E", "+", "%20") == "%7E" by {
      ReplaceRemovesAll("%7E", '+', "%20");
    }
    ReplaceAppend("%7E", Replace(t, "+", "%20"), '*', "%2A");
    assert Replace("%7E", "*", "%2A") == "%7E" by {
      ReplaceRemovesAll("%7E", '*', "%2A");
    }
  }

  /** "%7E" at the front survives the first two replacements and becomes "~". */
  lemma SubstitutedTilde(s: Bytes)
    requires HasPrefix(s, "%7E")
    ensures Replace(PlusStar(s), "%7E", "~") == "~" + Replace(PlusStar(s[3..]), "%7E", "~")
  {
    assert s == "%7E" + s[3..];
    PlusStarTilde(s[3..]);
    ReplaceTildeFront(PlusStar(s[3..]));
  }

  /** The third replacement passes over a "%2" and the byte after it. */
  lemma ReplaceTildeInserted(d: Byte, x: Bytes)
    requires d == '0' || d == 'A'
    ensures Replace(['%', '2', d] + x, "%7E", "~") == ['%', '2', d] + Replace(x, "%7E", "~")
  {
    var y := [d] + x;
    var z := ['2'] + y;
    var r := Replace(x, "%7E", "~");
    assert Replace(y, "%7E", "~") == [d] + r by {
      ReplaceTildeSkip(d, x);
    }
    assert Replace(z, "%7E", "~") == ['2'] + ([d] + r) by {
      ReplaceTildeSkip('2', y);
    }
    assert Replace(['%'] + z, "%7E", "~") == ['%'] + (['2'] + ([d] + r)) by {
      HasPrefixCons('2', y, "7E");
      ReplaceTildeSkip('%', z);
    }
    assert ['%', '2', d] + x == ['%'] + z;
    assert ['%'] + (['2'] + ([d] + r)) == ['%', '2', d] + r;
  }

  /** "%20" or "%2A", put in by the first two replacements, is left alone by the third. */
  lemma SubstitutedInserted(s: Bytes)
    requires s != [] && (s[0] == '+' || s[0] == '*')
    ensures Replace(PlusStar(s), "%7E", "~") == PlusStarByte(s[0]) + Replace(PlusStar(s[1..]), "%7E", "~")
  {
    PlusStarCons(s[0], s[1..]);
    assert [s[0]] + s[1..] == s;
    var d := if s[0] == '+' then '0' else 'A';
    assert PlusStarByte(s[0]) == ['%', '2', d];
    ReplaceTildeInserted(d, PlusStar(s[1..]));
  }

  /** The three replacements, read in one pass. */
  lemma {:induction false} ReplacementsAreSubstituted(s: Bytes)
    ensures Replace(PlusStar(s), "%7E", "~") == Substituted(s)
    decreases |s|
  {
    if s == [] {
      PlusStarEmpty();
    } else if HasPrefix(s, "%7E") {
      SubstitutedTilde(s);
      ReplacementsAreSubstituted(s[3..]);
    } else if s[0] == '+' || s[0] == '*' {
      SubstitutedInserted(s);
      ReplacementsAreSubstituted(s[1..]);
    } else {
      SubstitutedPlain(s);
      ReplacementsAreSubstituted(s[1..]);
    }
  }

  /** Escaping what the first two replacements make of a byte gives its token. */
  lemma EscapePlusStarByte(c: Byte)
    ensures QueryEscape(PlusStarByte(c)) == Token(c)
  {
    if c == '+' || c == '*' {
      var d := if c == '+' then '0' else 'A';
      var p := PlusStarByte(c);
      assert p == ['%', '2', d];
      assert QueryEscape([d]) == [d] by {
        assert [d][1..] == [];
      }
      assert QueryEscape(['2', d]) == ['2', d] by {
        assert ['2', d][1..] == [d];
      }
      assert QueryEscape(p) == "%25" + ['2', d] by {
        assert p[1..] == ['2', d];
        assert EscapeByte('%') == "%25";
      }
    } else {
      assert [c][1..] == [];
    }
  }

  /** Escaping the substituted text, token by token. */
  lemma {:induction false} EscapeSubstituted(s: Bytes)
    ensures QueryEscape(Substituted(s)) == EncodeRef(s)
    decreases |s|
  {
    if s != [] {
      if HasPrefix(s, "%7E") {
        EscapeSubstituted(s[3..]);
        QueryEscapeAppend("~", Substituted(s[3..]));
        assert "~"[1..] == [];
      } else {
        EscapeSubstituted(s[1..]);
        QueryEscapeAppend(PlusStarByte(s[0]), Substituted(s[1..]));
        EscapePlusStarByte(s[0]);
      }
    }
  }

  /** `urlEncode` agrees with the one-pass description `EncodeRef`. */
  lemma UrlEncodeIsRef(s: Bytes)
    ensures UrlEncode(s) == EncodeRef(s)
  {
    ReplacementsAreSubstituted(s);
    EscapeSubstituted(s);
  }

  // ---------------------------------------------------------------------
  // Properties of urlEncode

  /** A "%7E" cannot straddle the cut when the second part starts with neither '7' nor 'E'. */
  lemma NoStraddle(a: Bytes, b: Bytes)
    requires a != [] && !HasPrefix(a, "%7E")
    requires b == [] || (b[0] != '7' && b[0] != 'E')
    ensures !HasPrefix(a + b, "%7E")
  {
    if |a| >= 3 {
      assert (a + b)[..3] == a[..3];
    } else if |a + b| >= 3 {
      assert (a + b)[|a|] == b[0];
      assert (a + b)[..3][|a|] == (a + b)[|a|];
    }
  }

  /**
   * `EncodeRef` works piece by piece when the second part starts with
   * neither '7' nor 'E', so that no "%7E" can straddle the cut.
   */
  lemma {:induction false} EncodeRefAppend(a: Bytes, b: Bytes)
    requires b == [] || (b[0] != '7' && b[0] != 'E')
    ensures EncodeRef(a + b) == EncodeRef(a) + EncodeRef(b)
    decreases |a|
  {
    if a == [] {
      assert a + b == b;
    } else if HasPrefix(a, "%7E") {
      assert (a + b)[..3] == a[..3] && (a + b)[3..] == a[3..] + b;
      EncodeRefAppend(a[3..], b);
      AppendAssoc("~", EncodeRef(a[3..]), EncodeRef(b));
    } else {
      NoStraddle(a, b);
      assert (a + b)[0] == a[0] && (a + b)[1..] == a[1..] + b;
      EncodeRefAppend(a[1..], b);
      AppendAssoc(Token(a[0]), EncodeRef(a[1..]), EncodeRef(b));
    }
  }

  /** A byte that cannot take part in a "%7E" after the cut, between two parts. */
  lemma EncodeRefAround(a: Bytes, c: Byte, b: Bytes)
    requires c != '%' && c != '7' && c != 'E'
    ensures EncodeRef(a + [c] + b) == EncodeRef(a) + Token(c) + EncodeRef(b)
  {
    assert a + [c] + b == a + ([c] + b);
    EncodeRefAppend(a, [c] + b);
    HasPrefixCons(c, b, "%7E");
    assert ([c] + b)[1..] == b;
    AppendAssoc(EncodeRef(a), Token(c), EncodeRef(b));
  }

  /** `urlEncode` of a byte between two parts: the parts encoded on their own, and the byte's token. */
  lemma UrlEncodeAround(a: Bytes, c: Byte, b: Bytes)
    requires c != '%' && c != '7' && c != 'E'
    ensures UrlEncode(a + [c] + b) == UrlEncode(a) + Token(c) + UrlEncode(b)
  {
    UrlEncodeIsRef(a + [c] + b);
    UrlEncodeIsRef(a);
    UrlEncodeIsRef(b);
    EncodeRefAround(a, c, b);
  }

  /** What `urlEncode` makes of a "+", a "*" or a "~". */
  function SpecialToken(c: Byte): Bytes
    requires c == '+' || c == '*' || c == '~'
  {
    if c == '+' then "%2520" else if c == '*' then "%252A" else "~"
  }

  /**
   * Each "+" of the input comes out as "%2520" and each "*" as "%252A": the
   * '%' the replacements put in is escaped again. A "~" is never
   * percent-encoded. The parts around the byte are encoded on their own.
   */
  lemma SpecialBytesEncoded(a: Bytes, c: Byte, b: Bytes)
    requires c == '+' || c == '*' || c == '~'
    ensures UrlEncode(a + [c] + b) == UrlEncode(a) + SpecialToken(c) + UrlEncode(b)
  {
    UrlEncodeAround(a, c, b);
  }

  /** `EncodeRef` turns a "%7E" between two parts into "~". */
  lemma EncodeRefTilde(a: Bytes, b: Bytes)
    ensures EncodeRef(a + "%7E" + b) == EncodeRef(a) + "~" + EncodeRef(b)
  {
    assert a + "%7E" + b == a + ("%7E" + b);
    EncodeRefAppend(a, "%7E" + b);
    assert ("%7E" + b)[..3] == "%7E" && ("%7E" + b)[3..] == b;
    AppendAssoc(EncodeRef(a), "~", EncodeRef(b));
  }

  /** A "%7E" of the input comes out as "~". */
  lemma EncodedTildeDecoded(a: Bytes, b: Bytes)
    ensures UrlEncode(a + "%7E" + b) == UrlEncode(a) + "~" + UrlEncode(b)
  {
    UrlEncodeIsRef(a + "%7E" + b);
    UrlEncodeIsRef(a);
    UrlEncodeIsRef(b);
    EncodeRefTilde(a, b);
  }

  // ---------------------------------------------------------------------
  // The string to sign

  /**
   * What `sendMail` signs: "POST&%2F&" and the encoded, already encoded
   * query. Its only '&' are the two in that prefix, so it splits into the
   * method, the encoded path "/" and the encoded query.
   */
  function StringToSign(query: Bytes): (r: Bytes)
    ensures HasPrefix(r, "POST&%2F&")
    ensures r[9..] == UrlEncode(query)
    ensures forall i :: 0 <= i < |r| && r[i] == '&' ==> i == 4 || i == 8
  {
    var r := "POST&%2F&" + UrlEncode(query);
    assert r[..9] == "POST&%2F&";
    r
  }
}
