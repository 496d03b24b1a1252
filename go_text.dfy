/**
 * The pieces of Go's `bytes`, `strings` and `bufio` packages that the
 * notification parser relies on: ASCII white-space trimming, the search for
 * one byte, `strings.SplitN(s, sep, 2)` and the line splitting of a
 * `bufio.Scanner` in its default `ScanLines` mode.
 *
 * A Go string is a sequence of bytes; here it is a `string` whose every
 * character stands for one byte. Only ASCII characters are ever inspected.
 *
 * `TrimSpace`, `IndexByte`, `SplitN2` and `DropCR` state what they compute in
 * their own contracts; the lemmas beside them add trimming's decomposition,
 * its idempotence and the scanner's behaviour on whole texts.
 */
module GoText {

  datatype Option<T> = None | Some(value: T)

  /** A byte of a Go string, as a character below 256. */
  type Byte = c: char | c as int < 256

  /** The ASCII white space that `TrimSpace` removes: '\t', '\n', '\v', '\f', '\r' and ' '. */
  predicate IsSpace(c: char) {
    c == ' ' || c == '\t' || c == '\n' || c == '\r' || c == '\U{000B}' || c == '\U{000C}'
  }

  predicate AllSpace(s: string) {
    forall i :: 0 <= i < |s| ==> IsSpace(s[i])
  }

  /** Neither the first nor the last character of `s` is white space. */
  predicate NoEdgeSpace(s: string) {
    s == [] || (!IsSpace(s[0]) && !IsSpace(s[|s| - 1]))
  }

  /** Index of the first character of `s` at or after `i` that is not white space (|s| if none). */
  function SkipSpace(s: string, i: nat): (k: nat)
    requires i <= |s|
    ensures i <= k <= |s|
    decreases |s| - i
  {
    if i == |s| || !IsSpace(s[i]) then i else SkipSpace(s, i + 1)
  }

  /** `SkipSpace` passes over white space only, and stops at the first other character. */
  lemma {:induction false} SkipSpaceSpec(s: string, i: nat)
    requires i <= |s|
    ensures forall k :: i <= k < SkipSpace(s, i) ==> IsSpace(s[k])
    ensures SkipSpace(s, i) < |s| ==> !IsSpace(s[SkipSpace(s, i)])
    decreases |s| - i
  {
    if i < |s| && IsSpace(s[i]) {
      SkipSpaceSpec(s, i + 1);
    }
  }

  /** One past the last character of `s` before `j` that is not white space, but no lower than `start`. */
  function BackSpace(s: string, start: nat, j: nat): (k: nat)
    requires start <= j <= |s|
    ensures start <= k <= j
    decreases j
  {
    if j == start || !IsSpace(s[j - 1]) then j else BackSpace(s, start, j - 1)
  }

  /** `BackSpace` passes back over white space only, and stops after the last other character. */
  lemma {:induction false} BackSpaceSpec(s: string, start: nat, j: nat)
    requires start <= j <= |s|
    ensures forall k :: BackSpace(s, start, j) <= k < j ==> IsSpace(s[k])
    ensures BackSpace(s, start, j) > start ==> !IsSpace(s[BackSpace(s, start, j) - 1])
    decreases j
  {
    if j > start && IsSpace(s[j - 1]) {
      BackSpaceSpec(s, start, j - 1);
    }
  }

  /** Index of the first character of `s` that is not white space (|s| if none). */
  function TrimStart(s: string): (start: nat)
    ensures start <= |s|
  {
    SkipSpace(s, 0)
  }

  /** `TrimStart` skips white space only, and all of it. */
  lemma TrimStartSpec(s: string)
    ensures AllSpace(s[..TrimStart(s)])
    ensures TrimStart(s) < |s| ==> !IsSpace(s[TrimStart(s)])
  {
    SkipSpaceSpec(s, 0);
  }

  /** One past the last character of `s` that is not white space, but no lower than `start`. */
  function TrimStop(s: string, start: nat): (stop: nat)
    requires start <= |s|
    ensures start <= stop <= |s|
  {
    BackSpace(s, start, |s|)
  }

  /** `TrimStop` drops white space only, and all of it down to `start`. */
  lemma TrimStopSpec(s: string, start: nat)
    requires start <= |s|
    ensures AllSpace(s[TrimStop(s, start)..])
    ensures TrimStop(s, start) > start ==> !IsSpace(s[TrimStop(s, start) - 1])
  {
    BackSpaceSpec(s, start, |s|);
  }

  /**
   * Go's `strings.TrimSpace` / `bytes.TrimSpace` on ASCII text: the slice
   * between the leading and the trailing white space.
   */
  function TrimSpace(s: string): (r: string)
    ensures |r| <= |s|
    ensures NoEdgeSpace(r)
  {
    var start := TrimStart(s);
    TrimStartSpec(s);
    TrimStopSpec(s, start);
    s[start..TrimStop(s, start)]
  }

  /**
   * What trimming removes is white space at either end, and all of it: `s`
   * is an all-space prefix, the result and an all-space suffix.
   */
  lemma TrimSpaceSpec(s: string)
    ensures var start := TrimStart(s); var stop := TrimStop(s, start);
      s == s[..start] + TrimSpace(s) + s[stop..] && AllSpace(s[..start]) && AllSpace(s[stop..])
  {
    var start := TrimStart(s);
    var stop := TrimStop(s, start);
    TrimStartSpec(s);
    TrimStopSpec(s, start);
    assert s == s[..start] + s[start..stop] + s[stop..];
    if start < stop {
      assert !IsSpace(s[start]);
    }
  }

  /** Trimming removes everything exactly when the text is all white space. */
  lemma TrimSpaceEmpty(s: string)
    ensures TrimSpace(s) == [] <==> AllSpace(s)
  {
    var start := TrimStart(s);
    TrimStartSpec(s);
    TrimStopSpec(s, start);
    if TrimSpace(s) == [] {
      assert s[..start] == s;
    }
  }

  /** Trimming twice is trimming once. */
  lemma TrimSpaceIdempotent(s: string)
    ensures TrimSpace(TrimSpace(s)) == TrimSpace(s)
  {
    var r := TrimSpace(s);
    TrimSpaceSpec(s);
    if r != [] {
      assert TrimStart(r) == 0;
      assert TrimStop(r, 0) == |r|;
    }
  }

  /** The first index at or after `i` where `c` occurs in `s`, or -1. */
  function IndexFrom(s: string, c: char, i: nat): (k: int)
    requires i <= |s|
    ensures k == -1 || i <= k < |s|
    decreases |s| - i
  {
    if i == |s| then -1 else if s[i] == c then i else IndexFrom(s, c, i + 1)
  }

  /** `IndexFrom` finds the first occurrence from `i` on, and -1 means there is none. */
  lemma {:induction false} IndexFromSpec(s: string, c: char, i: nat)
    requires i <= |s|
    ensures IndexFrom(s, c, i) == -1 ==> forall k :: i <= k < |s| ==> s[k] != c
    ensures IndexFrom(s, c, i) >= 0 ==>
      s[IndexFrom(s, c, i)] == c && forall k :: i <= k < IndexFrom(s, c, i) ==> s[k] != c
    decreases |s| - i
  {
    if i < |s| && s[i] != c {
      IndexFromSpec(s, c, i + 1);
    }
  }

  /**
   * Go's `strings.IndexByte`: the FIRST index of `c` in `s`, and -1 exactly
   * when `c` does not occur.
   */
  function IndexByte(s: string, c: char): (i: int)
    ensures -1 <= i < |s|
    ensures i == -1 <==> c !in s
    ensures 0 <= i ==> s[i] == c && c !in s[..i]
  {
    IndexFromSpec(s, c, 0);
    var i := IndexFrom(s, c, 0);
    assert i == -1 ==> forall k :: 0 <= k < |s| ==> s[k] != c;
    assert 0 <= i ==> forall k :: 0 <= k < i ==> s[..i][k] != c;
    i
  }

  /** The first occurrence is unique: a `c` with none before it is the one `IndexByte` finds. */
  lemma IndexByteAt(s: string, c: char, j: nat)
    requires j < |s| && s[j] == c && c !in s[..j]
    ensures IndexByte(s, c) == j
  {
    IndexFromSpec(s, c, 0);
    assert forall k :: 0 <= k < j ==> s[..j][k] == s[k];
  }

  /**
   * Go's `strings.SplitN(s, string(sep), 2)`: the whole string, exactly when
   * `sep` does not occur; otherwise the parts before and after its first
   * occurrence.
   */
  function SplitN2(s: string, sep: char): (parts: seq<string>)
    ensures |parts| == 1 || |parts| == 2
    ensures |parts| == 1 <==> sep !in s
    ensures |parts| == 1 ==> parts[0] == s
    ensures |parts| == 2 ==> s == parts[0] + [sep] + parts[1] && sep !in parts[0]
  {
    var i := IndexByte(s, sep);
    if i < 0 then [s]
    else
      assert s == s[..i] + [sep] + s[i + 1..];
      [s[..i], s[i + 1..]]
  }

  /** The `dropCR` of Go's `bufio.ScanLines`: one trailing '\r' is removed. */
  function DropCR(s: string): (r: string)
    ensures s == r || s == r + "\r"
    ensures s == r <==> s == [] || s[|s| - 1] != '\r'
  {
    if |s| > 0 && s[|s| - 1] == '\r' then s[..|s| - 1] else s
  }

  /**
   * The tokens a `bufio.Scanner` with the `ScanLines` split function yields
   * for `data`: the text between '\n' bytes, each with one trailing '\r'
   * dropped; a final line without '\n' is a token too, and an empty input
   * yields none.
   */
  function ScanLines(data: string): (lines: seq<string>)
    ensures data == [] <==> lines == []
    decreases |data|
  {
    if data == [] then []
    else
      var i := IndexByte(data, '\n');
      if i >= 0 then [DropCR(data[..i])] + ScanLines(data[i + 1..])
      else [DropCR(data)]
  }

  /** The lines joined back together with '\n' between them. */
  function JoinLines(lines: seq<string>): string
  {
    if lines == [] then []
    else if |lines| == 1 then lines[0]
    else lines[0] + "\n" + JoinLines(lines[1..])
  }

  lemma JoinLinesCons(line: string, lines: seq<string>)
    requires lines != []
    ensures JoinLines([line] + lines) == line + "\n" + JoinLines(lines)
  {
    assert ([line] + lines)[1..] == lines;
  }

  /** `DropCR` keeps a prefix of its argument, so it adds no byte that was not there. */
  lemma DropCRWithin(s: string, c: char)
    requires c !in s
    ensures c !in DropCR(s)
  {
    if |s| > 0 && s[|s| - 1] == '\r' {
      assert forall k :: 0 <= k < |s| - 1 ==> s[..|s| - 1][k] == s[k];
    }
  }

  /** No token holds a '\n'. */
  lemma {:induction false} ScanLinesNoNewline(data: string)
    ensures forall j :: 0 <= j < |ScanLines(data)| ==> '\n' !in ScanLines(data)[j]
    decreases |data|
  {
    if data != [] {
      var i := IndexByte(data, '\n');
      if i < 0 {
        DropCRWithin(data, '\n');
        assert ScanLines(data) == [DropCR(data)];
      } else {
        var head, rest := data[..i], ScanLines(data[i + 1..]);
        ScanLinesNoNewline(data[i + 1..]);
        DropCRWithin(head, '\n');
        assert ScanLines(data) == [DropCR(head)] + rest;
      }
    }
  }

  /** Text without '\r' loses nothing to `DropCR`. */
  lemma DropCRKeeps(s: string)
    requires '\r' !in s
    ensures DropCR(s) == s
  {
    if s != [] {
      assert s[|s| - 1] in s;
    }
  }

  /** The text on either side of position `i` holds no '\r' when the whole does not. */
  lemma NoCRAround(data: string, i: nat)
    requires '\r' !in data && i < |data|
    ensures '\r' !in data[..i] && '\r' !in data[i + 1..]
  {
    var rest := data[i + 1..];
    forall k | 0 <= k < |rest|
      ensures rest[k] != '\r'
    {
      assert rest[k] == data[i + 1 + k];
    }
  }

  /**
   * Splitting into lines loses nothing but the '\r' bytes and a final '\n':
   * text without them is rebuilt exactly by joining its lines.
   */
  lemma {:induction false} ScanLinesJoin(data: string)
    requires '\r' !in data
    requires data == [] || data[|data| - 1] != '\n'
    ensures JoinLines(ScanLines(data)) == data
    decreases |data|
  {
    if data != [] {
      var i := IndexByte(data, '\n');
      if i >= 0 {
        var head, rest := data[..i], data[i + 1..];
        NoCRAround(data, i);
        DropCRKeeps(head);
        assert rest != [] && rest[|rest| - 1] == data[|data| - 1];
        ScanLinesJoin(rest);
        JoinLinesCons(head, ScanLines(rest));
        assert data == head + "\n" + rest;
      } else {
        DropCRKeeps(data);
      }
    }
  }

  /**
   * The text with every '\r' removed that stands right before a '\n' or at
   * the very end, and nothing else.
   */
  function StripCR(s: string): string
    decreases |s|
  {
    if s == [] then []
    else if s[0] == '\r' && (|s| == 1 || s[1] == '\n') then StripCR(s[1..])
    else [s[0]] + StripCR(s[1..])
  }

  lemma ConsTail(line: string, tail: string)
    requires line != []
    ensures (line + tail)[1..] == line[1..] + tail
  {
  }

  lemma NotInTail(line: string, c: char)
    requires line != [] && c !in line
    ensures c !in line[1..]
  {
    assert forall k :: 0 <= k < |line| - 1 ==> line[1..][k] == line[k + 1];
  }

  /** On a line of two bytes or more, `DropCR` keeps the first byte. */
  lemma DropCRCons(line: string)
    requires |line| >= 2
    ensures DropCR(line) == [line[0]] + DropCR(line[1..])
  {
    assert line[1..][|line| - 2] == line[|line| - 1];
    assert line[1..][..|line| - 2] == line[1..|line| - 1];
  }

  /** A line without '\n', then the rest: `StripCR` drops at most the line's own final '\r'. */
  lemma {:induction false} StripCRLine(line: string, tail: string)
    requires '\n' !in line
    requires tail == [] || tail[0] == '\n'
    ensures StripCR(line + tail) == DropCR(line) + StripCR(tail)
    decreases |line|
  {
    if line == [] {
      assert line + tail == tail;
    } else {
      ConsTail(line, tail);
      NotInTail(line, '\n');
      StripCRLine(line[1..], tail);
      if |line| == 1 {
        assert line[1..] == [];
        assert [] + StripCR(tail) == StripCR(tail);
      } else {
        DropCRCons(line);
        assert (line + tail)[1] == line[1] && line[1] in line;
        AppendAssoc([line[0]], DropCR(line[1..]), StripCR(tail));
      }
    }
  }

  /** A '\n' is kept by `StripCR`. */
  lemma StripCRNewline(rest: string)
    ensures StripCR("\n" + rest) == "\n" + StripCR(rest)
  {
    assert ("\n" + rest)[1..] == rest;
  }

  /** A line without '\n', a '\n', and the rest. */
  lemma StripCRFirstLine(head: string, rest: string)
    requires '\n' !in head
    ensures StripCR(head + "\n" + rest) == DropCR(head) + "\n" + StripCR(rest)
  {
    assert head + "\n" + rest == head + ("\n" + rest);
    StripCRLine(head, "\n" + rest);
    StripCRNewline(rest);
  }

  /** True when `data` ends with a '\n'. */
  predicate EndsInNewline(data: string) {
    data != [] && data[|data| - 1] == '\n'
  }

  /** The lines joined back, with the final '\n' when the text had one. */
  function Rejoined(data: string): string
  {
    JoinLines(ScanLines(data)) + if EndsInNewline(data) then "\n" else ""
  }

  lemma AppendAssoc(x: string, y: string, z: string)
    ensures (x + y) + z == x + (y + z)
  {
  }

  /** The scanner's first line, then the lines of the rest, joined back. */
  lemma RejoinedCons(data: string, line: string, rest: string)
    requires ScanLines(data) == [line] + ScanLines(rest)
    requires rest != [] ==> EndsInNewline(rest) == EndsInNewline(data)
    requires rest == [] ==> EndsInNewline(data)
    ensures Rejoined(data) == line + "\n" + Rejoined(rest)
  {
    var nl: string := if EndsInNewline(data) then "\n" else "";
    if rest != [] {
      JoinLinesCons(line, ScanLines(rest));
      AppendAssoc(line + "\n", JoinLines(ScanLines(rest)), nl);
    } else {
      assert JoinLines([line]) == line;
      assert Rejoined(rest) == [];
      assert line + "\n" + [] == line + "\n";
    }
  }

  /** A text with a '\n': the first line, then the lines of the rest. */
  lemma RejoinedFirstLine(data: string, head: string, rest: string)
    requires data == head + "\n" + rest && '\n' !in head
    requires Rejoined(rest) == StripCR(rest)
    ensures Rejoined(data) == StripCR(data)
  {
    assert ScanLines(data) == [DropCR(head)] + ScanLines(rest) by {
      assert data[..|head|] == head && data[|head| + 1..] == rest;
      IndexByteAt(data, '\n', |head|);
    }
    assert rest != [] ==> rest[|rest| - 1] == data[|data| - 1];
    RejoinedCons(data, DropCR(head), rest);
    StripCRFirstLine(head, rest);
  }

  /** A text is what comes before position `i`, the character there, and what comes after. */
  lemma CutAt(s: string, i: nat)
    requires i < |s|
    ensures s == s[..i] + [s[i]] + s[i + 1..]
  {
  }

  /** A text cut at its first '\n'. */
  lemma RejoinedAt(data: string, i: nat)
    requires i < |data| && data[i] == '\n' && '\n' !in data[..i]
    requires Rejoined(data[i + 1..]) == StripCR(data[i + 1..])
    ensures Rejoined(data) == StripCR(data)
  {
    CutAt(data, i);
    RejoinedFirstLine(data, data[..i], data[i + 1..]);
  }

  /** A text without '\n' is one line. */
  lemma RejoinedOneLine(data: string)
    requires data != [] && '\n' !in data
    ensures Rejoined(data) == StripCR(data)
  {
    assert ScanLines(data) == [DropCR(data)];
    assert data[|data| - 1] in data;
    assert data + [] == data;
    StripCRLine(data, []);
  }

  /**
   * What the scanner loses of its input, '\r' bytes included: its lines,
   * joined with '\n' (and the final '\n' put back if there was one), give
   * the input with each '\r' that ends a line removed.
   */
  lemma {:induction false} ScanLinesStripCR(data: string)
    ensures Rejoined(data) == StripCR(data)
    decreases |data|
  {
    if data != [] {
      var i := IndexByte(data, '\n');
      if i >= 0 {
        ScanLinesStripCR(data[i + 1..]);
        RejoinedAt(data, i);
      } else {
        RejoinedOneLine(data);
      }
    }
  }
}
