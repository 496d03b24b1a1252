/**
 * The notification parser `parse` of wechat-notify-mailer.go: a header block
 * of `key: value` lines, an empty line, then free text.
 *
 * `Parse` is the imperative loop. `Step` and `Run` state what one iteration
 * and a run of iterations do; `Reference` describes the result directly,
 * without the loop (which header line wins, which lines end up in the
 * description), and `RunIsReference` proves the two agree.
 */
module NotifyParse {
  import opened GoText
  import opened GoStrconv

  /** The `Input` record. `timestamp` is an int64 (seconds since the epoch). */
  datatype Input = Input(
    timestamp: int,
    service: string,
    event: string,
    action: string,
    host: string,
    description: string,
    url: string)

  /** The zero value of `Input`. */
  const Zero := Input(0, "", "", "", "", "", "")

  /** The state the loop carries: the `isDesc` flag and the record built so far. */
  datatype Scan = Scan(isDesc: bool, ret: Input)

  /** The six header keys `parse` knows, and `Other` for any other key. */
  datatype Field = Timestamp | Service | Event | Action | Host | Url | Other

  /** The key that names a field, as the `switch` in `parse` spells it. */
  function Key(f: Field): string
    requires f != Other
  {
    match f
    case Timestamp => "timestamp"
    case Service => "service"
    case Event => "event"
    case Action => "action"
    case Host => "host"
    case Url => "url"
  }

  /** The field a (trimmed) header key names: the cases of the `switch`. */
  function FieldOf(key: string): (f: Field)
    ensures f != Other ==> Key(f) == key
    ensures f == Other ==> forall g: Field :: g != Other ==> Key(g) != key
  {
    if key == "timestamp" then Timestamp
    else if key == "service" then Service
    else if key == "event" then Event
    else if key == "action" then Action
    else if key == "host" then Host
    else if key == "url" then Url
    else Other
  }

  /**
   * The `switch` on a header key: the field the key names is set, from the
   * value parsed as an int64 for `timestamp`, and no other field changes;
   * any other key changes nothing.
   */
  function SetField(ret: Input, key: string, value: string): (r: Input)
    ensures r.timestamp == if FieldOf(key) == Timestamp then ParseInt(value) else ret.timestamp
    ensures forall f :: f != Timestamp && f != Other ==>
      TextField(r, f) == if FieldOf(key) == f then value else TextField(ret, f)
    ensures r.description == ret.description
  {
    match FieldOf(key)
    case Timestamp => ret.(timestamp := ParseInt(value))
    case Service => ret.(service := value)
    case Event => ret.(event := value)
    case Action => ret.(action := value)
    case Host => ret.(host := value)
    case Url => ret.(url := value)
    case Other => ret
  }

  /** The line and a "\n" appended to the description. */
  function AppendLine(st: Scan, line: string): Scan
  {
    st.(ret := st.ret.(description := st.ret.description + line + "\n"))
  }

  /**
   * A header line: a line with a colon sets the field its trimmed key names
   * and empties the description, any other line is appended to it.
   */
  function HeaderLine(st: Scan, line: string): (r: Scan)
    ensures r.isDesc == st.isDesc
    ensures ':' in line ==> r.ret.description == ""
    ensures ':' !in line ==> r.ret == st.ret.(description := st.ret.description + line + "\n")
  {
    var parts := SplitN2(line, ':');
    if |parts| != 2 then AppendLine(st, line)
    else st.(ret := SetField(st.ret, TrimSpace(parts[0]), TrimSpace(parts[1])).(description := ""))
  }

  /**
   * One iteration of the loop, on the line `line`: the flag is set by the
   * first empty line and stays set, and once it is set the line is appended
   * to the description.
   */
  function Step(st: Scan, line: string): (r: Scan)
    ensures r.isDesc <==> st.isDesc || line == ""
    ensures st.isDesc ==> r.ret == st.ret.(description := st.ret.description + line + "\n")
  {
    if !st.isDesc && |line| == 0 then st.(isDesc := true)
    else if st.isDesc then AppendLine(st, line)
    else HeaderLine(st, line)
  }

  /** The loop's state after it has read `lines`, starting from the zero record; the timestamp stays an int64. */
  function Run(lines: seq<string>): (r: Scan)
    ensures MinInt64 <= r.ret.timestamp <= MaxInt64
  {
    if lines == [] then Scan(false, Zero)
    else Step(Run(lines[..|lines| - 1]), lines[|lines| - 1])
  }

  /** What `parse` returns: the loop over the lines of the trimmed input, then the description trimmed. */
  function ParseSpec(input: string): (r: Input)
    ensures NoEdgeSpace(r.description)
    ensures MinInt64 <= r.timestamp <= MaxInt64
    ensures AllSpace(input) ==> r == Zero
  {
    TrimSpaceEmpty(input);
    var ret := Run(ScanLines(TrimSpace(input))).ret;
    ret.(description := TrimSpace(ret.description))
  }

  /** `parse`: a single pass over the lines, updating the flag and the record in place. */
  method Parse(input: string) returns (ret: Input)
    ensures ret == ParseSpec(input)
    ensures NoEdgeSpace(ret.description)
    ensures MinInt64 <= ret.timestamp <= MaxInt64
    ensures AllSpace(input) ==> ret == Zero
  {
    TrimSpaceEmpty(input);
    var lines := ScanLines(TrimSpace(input));
    ret := Zero;
    var isDesc := false;
    var i := 0;
    while i < |lines|
      invariant 0 <= i <= |lines|
      invariant Run(lines[..i]) == Scan(isDesc, ret)
      invariant MinInt64 <= ret.timestamp <= MaxInt64
    {
      var line := lines[i];
      i := i + 1;
      assert lines[..i][..i - 1] == lines[..i - 1];
      if !isDesc && |line| == 0 {
        isDesc := true;
        continue;
      }
      if isDesc {
        ret := ret.(description := ret.description + line + "\n");
        continue;
      }
      var parts := SplitN2(line, ':');
      if |parts| != 2 {
        ret := ret.(description := ret.description + line + "\n");
        continue;
      }
      var key := TrimSpace(parts[0]);
      var value := TrimSpace(parts[1]);
      if key == "timestamp" {
        ret := ret.(timestamp := ParseInt(value));
      } else if key == "service" {
        ret := ret.(service := value);
      } else if key == "event" {
        ret := ret.(event := value);
      } else if key == "action" {
        ret := ret.(action := value);
      } else if key == "host" {
        ret := ret.(host := value);
      } else if key == "url" {
        ret := ret.(url := value);
      }
      ret := ret.(description := "");
    }
    assert lines[..i] == lines;
    TrimSpaceSpec(ret.description);
    ret := ret.(description := TrimSpace(ret.description));
  }

  // ---------------------------------------------------------------------
  // The result described without the loop

  /** Index of the first empty line, the separator, or |lines| if there is none. */
  function Separator(lines: seq<string>): (k: nat)
    ensures k <= |lines|
  {
    if lines == [] then 0
    else
      var n := |lines| - 1;
      var k := Separator(lines[..n]);
      if k < n then k else if lines[n] == "" then n else n + 1
  }

  /** The trimmed value of the LAST header line whose trimmed key names `f`. */
  function LastValue(header: seq<string>, f: Field): Option<string>
  {
    if header == [] then None
    else
      var parts := SplitN2(header[|header| - 1], ':');
      if |parts| == 2 && FieldOf(TrimSpace(parts[0])) == f then Some(TrimSpace(parts[1]))
      else LastValue(header[..|header| - 1], f)
  }

  function ValueOr(header: seq<string>, f: Field): string
  {
    match LastValue(header, f)
    case None => ""
    case Some(v) => v
  }

  function TimestampOf(header: seq<string>): int
  {
    match LastValue(header, Timestamp)
    case None => 0
    case Some(v) => ParseInt(v)
  }

  /** The header lines after the last one that holds a colon. */
  function AfterLastColon(header: seq<string>): seq<string>
  {
    if header == [] then []
    else if ':' in header[|header| - 1] then []
    else AfterLastColon(header[..|header| - 1]) + [header[|header| - 1]]
  }

  /** The lines, each followed by "\n". */
  function Text(lines: seq<string>): string
  {
    if lines == [] then [] else Text(lines[..|lines| - 1]) + lines[|lines| - 1] + "\n"
  }

  /**
   * The loop's state after `lines`, described directly. The lines before the
   * first empty line are the header and those after it the body. Each field
   * holds the value of the last header line with its key. The description is
   * the header lines after the last colon line, then every body line, each
   * with "\n" appended.
   */
  function Reference(lines: seq<string>): Scan
  {
    var k := Separator(lines);
    Described(lines[..k], if k < |lines| then lines[k + 1..] else [], k < |lines|)
  }

  /** The state for a given header and body; `isDesc` says whether the separator was read. */
  function Described(header: seq<string>, body: seq<string>, isDesc: bool): Scan
  {
    Scan(isDesc, Input(
      TimestampOf(header),
      ValueOr(header, Service),
      ValueOr(header, Event),
      ValueOr(header, Action),
      ValueOr(header, Host),
      Text(AfterLastColon(header)) + Text(body),
      ValueOr(header, Url)))
  }

  /** `Separator` is the index of the FIRST empty line. */
  lemma {:induction false} SeparatorSpec(lines: seq<string>)
    ensures InHeader(lines[..Separator(lines)])
    ensures Separator(lines) < |lines| ==> lines[Separator(lines)] == ""
    decreases |lines|
  {
    if lines != [] {
      var n := |lines| - 1;
      var k := Separator(lines[..n]);
      SeparatorSpec(lines[..n]);
      assert lines[..n][..k] == lines[..k];
      if k == n && lines[n] != "" {
        InHeaderSnoc(lines[..n], lines[n]);
        assert lines[..n] + [lines[n]] == lines[..n + 1];
      } else if k < n {
        assert lines[..n][k] == lines[k];
      }
    }
  }

  lemma SeparatorSnoc(lines: seq<string>, line: string)
    ensures Separator(lines + [line]) ==
      if Separator(lines) < |lines| then Separator(lines)
      else if line == "" then |lines| else |lines| + 1
  {
    assert (lines + [line])[..|lines|] == lines;
  }

  lemma TextSnoc(lines: seq<string>, line: string)
    ensures Text(lines + [line]) == Text(lines) + line + "\n"
  {
    assert (lines + [line])[..|lines|] == lines;
  }

  lemma SliceSnoc(lines: seq<string>, line: string, i: nat, j: nat)
    requires i <= |lines| && j <= |lines|
    ensures (lines + [line])[..i] == lines[..i]
    ensures (lines + [line])[j..] == lines[j..] + [line]
  {
  }

  lemma AppendLineAssoc(a: string, b: string, line: string)
    ensures a + (b + line + "\n") == (a + b) + line + "\n"
  {
  }

  lemma AppendNothing(a: string)
    ensures a + [] == a
  {
  }

  /** Before the separator every line read so far is header. */
  lemma ReferenceOfHeader(lines: seq<string>)
    requires Separator(lines) == |lines|
    ensures Reference(lines) == Described(lines, [], false)
  {
    assert lines[..|lines|] == lines;
  }

  /** A body line is appended to the description. */
  lemma DescribedAppend(header: seq<string>, body: seq<string>, line: string, before: Scan, after: Scan)
    requires before == Described(header, body, true)
    requires after == Described(header, body + [line], true)
    ensures after == AppendLine(before, line)
  {
    TextSnoc(body, line);
    AppendLineAssoc(Text(AfterLastColon(header)), Text(body), line);
  }

  /** After the separator, a step appends the line to the body. */
  lemma StepInBody(prev: seq<string>, line: string)
    requires Separator(prev) < |prev|
    ensures Step(Reference(prev), line) == Reference(prev + [line])
  {
    var k := Separator(prev);
    SeparatorSnoc(prev, line);
    assert Reference(prev + [line]) == Described(prev[..k], prev[k + 1..] + [line], true) by {
      SliceSnoc(prev, line, k, k + 1);
    }
    DescribedAppend(prev[..k], prev[k + 1..], line, Reference(prev), Reference(prev + [line]));
  }

  /** The first empty line only switches to the body. */
  lemma StepSeparator(prev: seq<string>)
    requires Separator(prev) == |prev|
    ensures Step(Reference(prev), "") == Reference(prev + [""])
  {
    SeparatorSnoc(prev, "");
    ReferenceOfHeader(prev);
    assert Reference(prev + [""]) == Described(prev, [], true) by {
      assert (prev + [""])[..|prev|] == prev;
      assert (prev + [""])[|prev| + 1..] == [];
    }
  }

  lemma LastValueSnoc(header: seq<string>, line: string, f: Field)
    ensures LastValue(header + [line], f) ==
      var parts := SplitN2(line, ':');
      if |parts| == 2 && FieldOf(TrimSpace(parts[0])) == f then Some(TrimSpace(parts[1]))
      else LastValue(header, f)
  {
    assert (header + [line])[..|header|] == header;
  }

  lemma AfterLastColonSnoc(header: seq<string>, line: string)
    ensures AfterLastColon(header + [line]) ==
      if ':' in line then [] else AfterLastColon(header) + [line]
  {
    assert (header + [line])[..|header|] == header;
  }

  /** The text after the last colon line: emptied by a colon line, otherwise extended by the line. */
  lemma HeaderTextSnoc(header: seq<string>, line: string)
    ensures Text(AfterLastColon(header + [line])) ==
      if ':' in line then [] else Text(AfterLastColon(header)) + line + "\n"
  {
    AfterLastColonSnoc(header, line);
    if ':' !in line {
      TextSnoc(AfterLastColon(header), line);
    }
  }

  /** The text field `f` names in `ret`. */
  function TextField(ret: Input, f: Field): string
    requires f != Timestamp && f != Other
  {
    match f
    case Service => ret.service
    case Event => ret.event
    case Action => ret.action
    case Host => ret.host
    case Url => ret.url
  }

  /** A header line keeps a text field equal to the value of the last line with its key. */
  lemma TextFieldSnoc(header: seq<string>, line: string, st: Scan, f: Field)
    requires f != Timestamp && f != Other
    requires TextField(st.ret, f) == ValueOr(header, f)
    ensures TextField(HeaderLine(st, line).ret, f) == ValueOr(header + [line], f)
  {
    LastValueSnoc(header, line, f);
    var parts := SplitN2(line, ':');
    if |parts| == 2 {
      var key := TrimSpace(parts[0]);
      assert TextField(HeaderLine(st, line).ret, f) == if FieldOf(key) == f then TrimSpace(parts[1]) else TextField(st.ret, f);
    }
  }

  /** A header line keeps the timestamp equal to the value of the last `timestamp` line. */
  lemma TimestampSnoc(header: seq<string>, line: string, st: Scan)
    requires st.ret.timestamp == TimestampOf(header)
    ensures HeaderLine(st, line).ret.timestamp == TimestampOf(header + [line])
  {
    LastValueSnoc(header, line, Timestamp);
  }

  /** A header line keeps the description equal to the text after the last colon line. */
  lemma DescriptionSnoc(header: seq<string>, line: string, st: Scan)
    requires st.ret.description == Text(AfterLastColon(header))
    ensures HeaderLine(st, line).ret.description == Text(AfterLastColon(header + [line]))
  {
    HeaderTextSnoc(header, line);
  }

  /** A text field after a header line is the value the longer header gives it. */
  lemma DescribedTextField(header: seq<string>, line: string, before: Scan, f: Field)
    requires before == Described(header, [], false)
    requires f != Timestamp && f != Other
    ensures TextField(HeaderLine(before, line).ret, f) == TextField(Described(header + [line], [], false).ret, f)
  {
    TextFieldSnoc(header, line, before, f);
  }

  /** A header line: a colon line sets its field and clears the description, any other line is appended. */
  lemma DescribedHeaderLine(header: seq<string>, line: string, before: Scan, after: Scan)
    requires before == Described(header, [], false)
    requires after == Described(header + [line], [], false)
    ensures after == HeaderLine(before, line)
  {
    AppendNothing(Text(AfterLastColon(header)));
    AppendNothing(Text(AfterLastColon(header + [line])));
    TimestampSnoc(header, line, before);
    DescribedTextField(header, line, before, Service);
    DescribedTextField(header, line, before, Event);
    DescribedTextField(header, line, before, Action);
    DescribedTextField(header, line, before, Host);
    DescribedTextField(header, line, before, Url);
    DescriptionSnoc(header, line, before);
    SameScan(after, HeaderLine(before, line));
  }

  /** Two loop states with the same flag and the same fields are equal. */
  lemma SameScan(a: Scan, b: Scan)
    requires a.isDesc == b.isDesc && a.ret.timestamp == b.ret.timestamp
    requires TextField(a.ret, Service) == TextField(b.ret, Service)
    requires TextField(a.ret, Event) == TextField(b.ret, Event)
    requires TextField(a.ret, Action) == TextField(b.ret, Action)
    requires TextField(a.ret, Host) == TextField(b.ret, Host)
    requires TextField(a.ret, Url) == TextField(b.ret, Url)
    requires a.ret.description == b.ret.description
    ensures a == b
  {
  }

  /** Before the separator, a non-empty line is a header line. */
  lemma StepInHeader(prev: seq<string>, line: string)
    requires Separator(prev) == |prev| && line != ""
    ensures Step(Reference(prev), line) == Reference(prev + [line])
  {
    SeparatorSnoc(prev, line);
    ReferenceOfHeader(prev);
    ReferenceOfHeader(prev + [line]);
    DescribedHeaderLine(prev, line, Reference(prev), Reference(prev + [line]));
  }

  /** The loop computes exactly the directly described record. */
  lemma {:induction false} RunIsReference(lines: seq<string>)
    ensures Run(lines) == Reference(lines)
    decreases |lines|
  {
    if lines != [] {
      var n := |lines| - 1;
      var prev, line := lines[..n], lines[n];
      assert lines == prev + [line];
      RunIsReference(prev);
      if Separator(prev) < n {
        StepInBody(prev, line);
      } else if line == "" {
        StepSeparator(prev);
      } else {
        StepInHeader(prev, line);
      }
    }
  }

  // ---------------------------------------------------------------------
  // Properties of the loop, line by line

  /** No empty line has been read: the loop is still in the header. */
  predicate InHeader(lines: seq<string>) {
    forall j :: 0 <= j < |lines| ==> lines[j] != ""
  }

  lemma InHeaderSnoc(lines: seq<string>, line: string)
    ensures InHeader(lines + [line]) <==> InHeader(lines) && line != ""
  {
    if InHeader(lines + [line]) {
      assert (lines + [line])[|lines|] == line;
      forall j | 0 <= j < |lines| ensures lines[j] != "" {
        assert (lines + [line])[j] == lines[j];
      }
    }
  }

  /** The loop is in the description exactly once it has read an empty line. */
  lemma {:induction false} RunFlag(lines: seq<string>)
    ensures Run(lines).isDesc <==> !InHeader(lines)
    decreases |lines|
  {
    if lines != [] {
      var n := |lines| - 1;
      assert lines == lines[..n] + [lines[n]];
      RunFlag(lines[..n]);
      InHeaderSnoc(lines[..n], lines[n]);
    }
  }

  /**
   * Once an empty line has been read, every further line, empty ones too, is
   * appended to the description with "\n", and no other field changes.
   */
  lemma {:induction false} BodyLinesAppend(lines: seq<string>, more: seq<string>)
    requires !InHeader(lines)
    ensures Run(lines + more) ==
      Scan(true, Run(lines).ret.(description := Run(lines).ret.description + Text(more)))
    decreases |more|
  {
    if more == [] {
      RunFlag(lines);
      assert lines + more == lines;
    } else {
      var m := |more| - 1;
      assert lines + more == (lines + more[..m]) + [more[m]];
      assert (lines + more)[..|lines + more| - 1] == lines + more[..m];
      BodyLinesAppend(lines, more[..m]);
      TextSnoc(more[..m], more[m]);
      AppendLineAssoc(Run(lines).ret.description, Text(more[..m]), more[m]);
      assert more[..m] + [more[m]] == more;
    }
  }

  /** In the header, a line without a colon is appended to the description and changes nothing else. */
  lemma PlainLineAppends(lines: seq<string>, line: string)
    requires InHeader(lines) && line != "" && ':' !in line
    ensures Run(lines + [line]) ==
      Scan(false, Run(lines).ret.(description := Run(lines).ret.description + line + "\n"))
  {
    RunFlag(lines);
    assert (lines + [line])[..|lines|] == lines;
  }

  /** Splitting at the first colon is unambiguous. */
  lemma SplitAtFirstColon(key: string, value: string)
    requires ':' !in key
    ensures SplitN2(key + ":" + value, ':') == [key, value]
  {
    var line := key + ":" + value;
    assert line[..|key|] == key && line[|key| + 1..] == value;
    IndexByteAt(line, ':', |key|);
  }

  /**
   * In the header, a line `key:value` (split at its FIRST colon, so the value
   * may hold more colons) sets the field the trimmed key names to the trimmed
   * value and empties the description, whatever the key.
   */
  lemma ColonLine(lines: seq<string>, key: string, value: string)
    requires InHeader(lines) && ':' !in key
    ensures Run(lines + [key + ":" + value]) ==
      Scan(false, SetField(Run(lines).ret, TrimSpace(key), TrimSpace(value)).(description := ""))
  {
    RunFlag(lines);
    SplitAtFirstColon(key, value);
    assert (lines + [key + ":" + value])[..|lines|] == lines;
  }

  /** A header line whose trimmed key is none of the six clears the description and nothing else. */
  lemma UnknownKeyClearsDescription(lines: seq<string>, key: string, value: string)
    requires InHeader(lines) && ':' !in key
    requires forall f: Field :: f != Other ==> TrimSpace(key) != Key(f)
    ensures Run(lines + [key + ":" + value]) == Scan(false, Run(lines).ret.(description := ""))
  {
    ColonLine(lines, key, value);
  }

  /**
   * In the header, a `timestamp` line sets the timestamp to `ParseInt` of the
   * trimmed value (0 when it is malformed, clamped when out of range), over any
   * earlier value, and empties the description.
   */
  lemma TimestampLine(lines: seq<string>, value: string)
    requires InHeader(lines)
    ensures Run(lines + ["timestamp" + ":" + value]) ==
      Scan(false, Run(lines).ret.(timestamp := ParseInt(TrimSpace(value)), description := ""))
  {
    ColonLine(lines, "timestamp", value);
    KeyUntrimmed("timestamp");
    var ret := Run(lines).ret;
    assert SetField(ret, "timestamp", TrimSpace(value)) == ret.(timestamp := ParseInt(TrimSpace(value))) by {
      assert FieldOf("timestamp") == Timestamp;
    }
  }

  /** A key with no white space at either end is its own trimmed form. */
  lemma KeyUntrimmed(key: string)
    requires key != [] && !IsSpace(key[0]) && !IsSpace(key[|key| - 1])
    ensures TrimSpace(key) == key
  {
    assert TrimStart(key) == 0;
    assert TrimStop(key, 0) == |key|;
  }
}
