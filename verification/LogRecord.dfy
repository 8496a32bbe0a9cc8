/** The 256-byte records of src/lib/nh-monitor: how handleLogMessage writes one, how
    splitByTwoPluses takes it apart. */
module LogRecord {
  import opened CText
  import opened LoggerTree

  const RECORD_SIZE: nat := 256
  const SEPARATOR: char := '\U{1F}'

  // ---- writing ----

  /** The options as printf shows them. */
  function Printed(options: Option<string>): string {
    if options.None? then "(null)" else options.value
  }

  function Line(m: Message): string {
    m.node + [SEPARATOR] + Printed(m.options) + [SEPARATOR] + m.text
  }

  function Zeros(n: nat): (z: string)
    ensures |z| == n && forall i :: 0 <= i < n ==> z[i] == '\0'
  {
    seq(n, i => '\0')
  }

  /** snprintf into a zeroed buffer of 256 bytes, with a size of 255. */
  function Record(m: Message): (r: string)
    ensures |r| == RECORD_SIZE
  {
    var line := Line(m);
    var kept := if |line| > RECORD_SIZE - 2 then line[..RECORD_SIZE - 2] else line;
    kept + Zeros(RECORD_SIZE - |kept|)
  }

  function Records(ms: seq<Message>): (r: string)
    ensures |r| == RECORD_SIZE * |ms|
  {
    if ms == [] then "" else Records(ms[..|ms| - 1]) + Record(ms[|ms| - 1])
  }

  // ---- reading ----

  datatype Parts = NoParts | Parts(part1: string, part2: Option<string>, part3: string)

  /** splitByTwoPluses on a C string. */
  function Split(s: string): Parts {
    var first := |Until(s, [SEPARATOR])|;
    if first == |s| then NoParts
    else
      var second := first + 1 + |Until(s[first + 1..], [SEPARATOR])|;
      if second == |s| then NoParts
      else Parts(s[..first], if second == first + 1 then None else Some(s[first + 1..second]), s[second + 1..])
  }

  /** The NULs that splitByTwoPluses writes over the separators. */
  function Cut(s: string): (r: string)
    ensures |r| == |s|
  {
    var first := |Until(s, [SEPARATOR])|;
    if first == |s| then s
    else
      var second := first + 1 + |Until(s[first + 1..], [SEPARATOR])|;
      if second == |s| then s
      else if second == first + 1 then s[first := '\0']
      else s[first := '\0'][second := '\0']
  }

  /** A buffer after the string that starts at position at was split. */
  function CutAt(buffer: string, at: nat): (r: string)
    requires at <= |buffer|
    ensures |r| == |buffer|
  {
    var s := CStr(buffer[at..]);
    buffer[..at] + Cut(s) + buffer[at + |s|..]
  }

  /** The messages the replay loop finds in a buffer; a record that cannot be split ends it. */
  function Messages(buffer: string, at: nat, received: nat): seq<Message>
    requires received <= |buffer|
    decreases received - at
  {
    if at >= received then []
    else
      var parts := Split(CStr(buffer[at..]));
      if parts.NoParts? then []
      else [Message(parts.part1, parts.part2, parts.part3)] + Messages(CutAt(buffer, at), at + RECORD_SIZE, received)
  }

  // ---- round trip ----

  /** The message fits a record and can be told apart in it. */
  ghost predicate Fits(m: Message) {
    && |Line(m)| <= RECORD_SIZE - 2
    && SEPARATOR !in m.node && '\0' !in m.node
    && SEPARATOR !in Printed(m.options) && '\0' !in Printed(m.options)
    && '\0' !in m.text
  }

  /** The message as the peer sees it: its options went through printf and splitByTwoPluses. */
  function Seen(m: Message): Message {
    Message(m.node, if Printed(m.options) == "" then None else Some(Printed(m.options)), m.text)
  }

  function AllSeen(ms: seq<Message>): (r: seq<Message>)
    ensures |r| == |ms| && forall i :: 0 <= i < |ms| ==> r[i] == Seen(ms[i])
  {
    seq(|ms|, i requires 0 <= i < |ms| => Seen(ms[i]))
  }

  lemma SplitLine(m: Message)
    requires Fits(m)
    ensures Split(Line(m)) == Parts(Seen(m).node, Seen(m).options, Seen(m).text)
  {
    hide Until;
    SplitThree(m.node, Printed(m.options), m.text);
  }

  lemma SplitThree(a: string, b: string, c: string)
    requires SEPARATOR !in a && SEPARATOR !in b
    ensures Split(a + [SEPARATOR] + b + [SEPARATOR] + c) == Parts(a, if b == "" then None else Some(b), c)
  {
    hide Until;
    var end := [SEPARATOR] + c;
    var s := a + [SEPARATOR] + b + [SEPARATOR] + c;
    assert s == a + ([SEPARATOR] + (b + end));
    UntilIs(a, [SEPARATOR] + (b + end), [SEPARATOR]);
    UntilIs(b, end, [SEPARATOR]);
    Slices(a, b, c);
  }

  lemma Slices(a: string, b: string, c: string)
    ensures var s := a + [SEPARATOR] + b + [SEPARATOR] + c;
      && s[..|a|] == a && s[|a| + 1..] == b + ([SEPARATOR] + c)
      && s[|a| + 1..|a| + 1 + |b|] == b && s[|a| + 1 + |b| + 1..] == c
  {
  }

  lemma LineIsC(m: Message, more: string)
    requires Fits(m)
    ensures CStr(Record(m) + more) == Line(m)
  {
    var line := Line(m);
    var zeros := Zeros(RECORD_SIZE - |line|);
    assert zeros == "\0" + zeros[1..];
    assert Record(m) + more == line + "\0" + (zeros[1..] + more);
    assert '\0' !in line;
    CStrTerminated(line, zeros[1..] + more);
    CStrWhole(line);
  }

  lemma {:induction false} UntilAvoids(s: string, stop: char)
    ensures stop !in Until(s, [stop])
  {
    if s != "" && s[0] != stop { UntilAvoids(s[1..], stop); }
  }

  lemma SplitInverse(s: string)
    requires Split(s).Parts?
    ensures var p := Split(s);
      var part2 := if p.part2.None? then "" else p.part2.value;
      SEPARATOR !in p.part1 && SEPARATOR !in part2
      && |s| == |p.part1| + 1 + |part2| + 1 + |p.part3|
  {
    hide Until;
    var first := |Until(s, [SEPARATOR])|;
    UntilAvoids(s, SEPARATOR);
    UntilAvoids(s[first + 1..], SEPARATOR);
    var second := first + 1 + |Until(s[first + 1..], [SEPARATOR])|;
    assert s[first + 1..][..second - first - 1] == s[first + 1..second];
  }

  lemma RecordIsShort(m: Message)
    ensures |CStr(Record(m))| <= RECORD_SIZE - 2
  {
    hide CStr;
    var line := Line(m);
    var kept := if |line| > RECORD_SIZE - 2 then line[..RECORD_SIZE - 2] else line;
    var zeros := Zeros(RECORD_SIZE - |kept|);
    assert zeros == "\0" + zeros[1..];
    assert Record(m) == kept + "\0" + zeros[1..];
    CStrTerminated(kept, zeros[1..]);
  }

  /** A record is read as the message it was written from exactly when the message fits. */
  lemma RecordFaithful(m: Message)
    requires '\0' !in m.node && '\0' !in Printed(m.options) && '\0' !in m.text
    ensures Split(CStr(Record(m))) == Parts(Seen(m).node, Seen(m).options, Seen(m).text) <==> Fits(m)
  {
    hide Split, CStr, Record;
    if Fits(m) {
      LineIsC(m, "");
      assert Record(m) + "" == Record(m);
      SplitLine(m);
    }
    if Split(CStr(Record(m))) == Parts(Seen(m).node, Seen(m).options, Seen(m).text) {
      SplitInverse(CStr(Record(m)));
      RecordIsShort(m);
    }
  }

  /** A record behind `at` is one message, and splitting it leaves the records behind it alone. */
  lemma FirstRecord(buffer: string, at: nat, m: Message, more: string)
    requires at <= |buffer| && Fits(m) && buffer[at..] == Record(m) + more
    ensures Split(CStr(buffer[at..])) == Parts(Seen(m).node, Seen(m).options, Seen(m).text)
    ensures CutAt(buffer, at)[at + RECORD_SIZE..] == more
  {
    hide Split, Cut, Record, CStr, Seen;
    LineIsC(m, more);
    SplitLine(m);
    ShortLine(m);
    BehindCut(buffer, at, at + RECORD_SIZE);
    assert buffer[at..][RECORD_SIZE..] == more;
    assert buffer[at..][RECORD_SIZE..] == buffer[at + RECORD_SIZE..];
  }

  lemma ShortLine(m: Message)
    requires Fits(m)
    ensures |Line(m)| < RECORD_SIZE
  {
  }

  lemma BehindCut(buffer: string, at: nat, from: nat)
    requires at <= from <= |buffer| && |CStr(buffer[at..])| <= from - at
    ensures CutAt(buffer, at)[from..] == buffer[from..]
  {
    hide Cut, CStr;
  }

  lemma {:induction false} RecordsFirst(ms: seq<Message>)
    requires ms != []
    ensures Records(ms) == Record(ms[0]) + Records(ms[1..])
  {
    if |ms| == 1 {
      assert ms[..0] == [] && ms[1..] == [];
      assert Records(ms) == "" + Record(ms[0]);
    } else {
      var most := ms[..|ms| - 1];
      RecordsFirst(most);
      assert most[1..] == ms[1..][..|ms| - 2];
      assert Record(ms[0]) + Records(most[1..]) + Record(ms[|ms| - 1])
          == Record(ms[0]) + (Records(most[1..]) + Record(ms[|ms| - 1]));
    }
  }

  lemma RecordsMore(ms: seq<Message>, m: Message)
    ensures Records(ms + [m]) == Records(ms) + Record(m)
  {
    hide Record;
    assert (ms + [m])[..|ms|] == ms;
  }

  lemma {:induction false} RecordsSplit(ms: seq<Message>, k: nat)
    requires k <= |ms|
    ensures Records(ms) == Records(ms[..k]) + Records(ms[k..])
  {
    hide Record, Records;
    if k == |ms| {
      assert ms[..k] == ms && ms[k..] == [];
      NoRecords();
    } else {
      var before, last := ms[..|ms| - 1], ms[|ms| - 1];
      RecordsSplit(before, k);
      assert before[..k] == ms[..k] && ms[k..] == before[k..] + [last] && ms == before + [last];
      RecordsMore(before, last);
      RecordsMore(before[k..], last);
      Associative(Records(ms[..k]), Records(before[k..]), Record(last));
    }
  }

  lemma NoRecords()
    ensures Records([]) == ""
  {
  }

  lemma Associative(a: string, b: string, c: string)
    ensures a + (b + c) == (a + b) + c
  {
  }

  /** Whole records in a buffer are read as the messages they were written from. */
  lemma {:induction false} MessagesOfRecords(buffer: string, at: nat, received: nat, ms: seq<Message>, more: string)
    requires received <= |buffer| && at + RECORD_SIZE * |ms| == received
    requires (forall m <- ms :: Fits(m)) && buffer[at..] == Records(ms) + more
    ensures Messages(buffer, at, received) == AllSeen(ms)
    decreases |ms|
  {
    hide Split, CutAt, Record, Fits, CStr, Records, Seen;
    if ms != [] {
      RecordsFirst(ms);
      assert ms[0] in ms;
      var rest := Records(ms[1..]) + more;
      assert buffer[at..] == Record(ms[0]) + rest;
      FirstRecord(buffer, at, ms[0], rest);
      MessagesOfRecords(CutAt(buffer, at), at + RECORD_SIZE, received, ms[1..], more);
      assert [Seen(ms[0])] + AllSeen(ms[1..]) == AllSeen(ms);
    }
  }
}
