/** The logger of src/lib/nh-monitor/Logger.c: a tree of nodes that grows in place, and the buffer of
    records for a peer monitor. */
module Loggers {
  import opened CText
  import opened LoggerTree
  import opened LogRecord
  import opened LogReplay

  class LoggerNode {
    const name: string
    const parent: LoggerNode?
    var children: seq<LoggerNode>
    var messages: seq<string>
    ghost const place: Path

    constructor (name: string, parent: LoggerNode?, ghost place: Path)
      ensures this.name == name && this.parent == parent && children == [] && messages == []
      ensures this.place == place
    {
      this.name := name;
      this.parent := parent;
      this.place := place;
      children, messages := [], [];
    }
  }

  /** The scanning loops of parseLoggerOptions: on to the first of the given characters. */
  method Scan(text: string, from: nat, stops: string) returns (piece: string, i: nat)
    requires from <= |text|
    ensures piece == Until(text[from..], stops) && i == from + |piece| <= |text|
  {
    hide Until;
    i, piece := from, "";
    while i < |text| && text[i] !in stops
      invariant from <= i == from + |piece| <= |text|
      invariant Until(text[from..], stops) == piece + Until(text[i..], stops)
    {
      UntilStep(text, i, stops, piece);
      piece := piece + [text[i]];
      i := i + 1;
    }
    UntilStep(text, i, stops, piece);
  }

  lemma UntilStep(text: string, i: nat, stops: string, piece: string)
    requires i <= |text|
    ensures piece + Until(text[i..], stops)
         == if i == |text| || text[i] in stops then piece else piece + [text[i]] + Until(text[i + 1..], stops)
  {
    if i < |text| && text[i] !in stops {
      assert text[i..][1..] == text[i + 1..];
      assert piece + ([text[i]] + Until(text[i + 1..], stops)) == piece + [text[i]] + Until(text[i + 1..], stops);
    }
  }

  /** One round of parseLoggerOptions. */
  method ReadOption(text: string) returns (r: FirstOption)
    ensures r == ScanOption(text)
  {
    hide Until;
    assert text[0..] == text;
    var name, i := Scan(text, 0, "=;");
    if i == |text| || text[i] != '=' { return Bare(name); }
    assert text[i..][1..] == text[i + 1..];
    var value, j := Scan(text, i + 1, ";");
    assert text[i + 1..][|value|..] == text[j..];
    assert j < |text| ==> text[j..][1..] == text[j + 1..];
    r := Pair(name, value, if j < |text| then Some(text[j + 1..]) else None);
  }

  /** parseLoggerOptions, appending to an array of options. */
  method ParseLoggerOptions(text: string, options: seq<LoggerOption>) returns (parsed: seq<LoggerOption>)
    ensures parsed == options + ParseOptions(text)
    decreases |text|
  {
    hide ScanOption, ParseOptions;
    var first := ReadOption(text);
    ParseStep(text, options);
    if first.Bare? {
      return if first.name != "" then options + [LoggerOption(first.name, "")] else options;
    }
    parsed := options;
    if first.value != "" { parsed := parsed + [LoggerOption(first.name, first.value)]; }
    if first.others.Some? { parsed := ParseLoggerOptions(first.others.value, parsed); }
  }

  lemma ParseStep(text: string, options: seq<LoggerOption>)
    ensures options + ParseOptions(text)
         == match ScanOption(text)
            case Bare(name) => if name != "" then options + [LoggerOption(name, "")] else options
            case Pair(name, value, others) =>
              var more := if value != "" then options + [LoggerOption(name, value)] else options;
              if others.Some? then more + ParseOptions(others.value) else more
  {
    hide ScanOption;
    match ScanOption(text) {
      case Bare(name) => Regroup(options, OptionIf(name, "", name != ""), []);
      case Pair(name, value, others) =>
        Regroup(options, OptionIf(name, value, value != ""),
                if others.Some? then ParseOptions(others.value) else []);
    }
  }

  lemma Regroup<T>(a: seq<T>, b: seq<T>, c: seq<T>)
    ensures a + (b + c) == (a + b) + c && a + [] == a && a + b + [] == a + b && b + [] == b
  {
  }

  /** processLoggerOptions: None when strcmp or atoi gets the NULL of an empty string. */
  method ProcessLoggerOptions(options: seq<LoggerOption>) returns (replace: Option<int>)
    ensures replace == if ReadsNull(options) then None else Some(Replace(options))
  {
    hide Atoi;
    var last := -1;
    for i := 0 to |options|
      invariant last == Replace(options[..i])
      invariant forall k :: 0 <= k < i ==>
        !(options[k].name == "" || (options[k].name == "replace" && options[k].value == ""))
    {
      assert options[..i + 1][..i] == options[..i];
      var option := options[i];
      assert option in options;
      if option.name == "" { return None; }
      if option.name == "replace" {
        if option.value == "" { return None; }
        last := Atoi(option.value);
      }
    }
    assert options[..|options|] == options;
    replace := Some(last);
  }

  /** The objects are the nodes of these names below the place. */
  ghost predicate AreChildren(objects: seq<LoggerNode>, names: seq<string>, at: Path, nodes: map<Path, LoggerNode>) {
    && |objects| == |names|
    && forall i :: 0 <= i < |names| ==> Child(at, names[i]) in nodes && nodes[Child(at, names[i])] == objects[i]
  }

  ghost predicate Shows(node: LoggerNode, entry: Entry, at: Path, nodes: map<Path, LoggerNode>)
    reads node
  {
    node.messages == entry.messages && AreChildren(node.children, entry.children, at, nodes)
  }

  lemma ChildrenStay(objects: seq<LoggerNode>, names: seq<string>, at: Path, nodes: map<Path, LoggerNode>,
                     p: Path, child: LoggerNode)
    requires AreChildren(objects, names, at, nodes) && p !in nodes
    ensures AreChildren(objects, names, at, nodes[p := child])
    ensures p.Child? && p.parent == at ==> AreChildren(objects + [child], names + [p.name], at, nodes[p := child])
  {
  }

  lemma Unfold(node: LoggerNode, entry: Entry, at: Path, nodes: map<Path, LoggerNode>)
    requires Shows(node, entry, at, nodes)
    ensures node.messages == entry.messages && AreChildren(node.children, entry.children, at, nodes)
  {
  }

  lemma Fold(node: LoggerNode, entry: Entry, at: Path, nodes: map<Path, LoggerNode>)
    requires node.messages == entry.messages && AreChildren(node.children, entry.children, at, nodes)
    ensures Shows(node, entry, at, nodes)
  {
  }

  lemma ShowsStill(node: LoggerNode, entry: Entry, at: Path, nodes: map<Path, LoggerNode>, p: Path, child: LoggerNode)
    requires Shows(node, entry, at, nodes) && p !in nodes
    ensures Shows(node, entry, at, nodes[p := child])
  {
    hide AreChildren;
    ChildrenStay(node.children, entry.children, at, nodes, p, child);
  }

  lemma NoChildren(at: Path, nodes: map<Path, LoggerNode>)
    ensures AreChildren([], [], at, nodes)
  {
  }

  class Logger {
    const root: LoggerNode
    var state: int
    /** Records that wait to be sent. */
    var buffer: string
    /** The bytes handed to the connection so far. */
    var sent: string
    var totalLogs: nat
    ghost var nodes: map<Path, LoggerNode>
    ghost var log: Log
    /** The messages handled so far, and those that went into records. */
    ghost var history: seq<Message>
    ghost var recorded: seq<Message>

    /** The node objects show the log. */
    ghost predicate TreeValid()
      reads this`nodes, this`log, nodes.Values
      ensures TreeValid() ==> WellFormed(log) && nodes.Keys == log.Keys && Root in nodes && nodes[Root] == root
    {
      && WellFormed(log) && nodes.Keys == log.Keys && Root in nodes && nodes[Root] == root
      && (forall p :: p in nodes ==> Shows(nodes[p], log[p], p, nodes))
      && (forall p :: p in nodes ==> nodes[p].place == p && (p.Child? ==> nodes[p].name == p.name))
    }

    /** At any time the tree and the counter are what the messages handled so far make of an empty
        logger, and the bytes for the peer are the records of the messages recorded so far. */
    ghost predicate Valid()
      reads this, nodes.Values
      ensures Valid() ==>
        && TreeValid() && Replica(log, totalLogs) == Replay(history)
        && sent + buffer == Records(recorded) && |buffer| <= 256000 && NoCrash(history) && NoCrash(recorded)
    {
      && TreeValid() && Replica(log, totalLogs) == Replay(history)
      && sent + buffer == Records(recorded) && |buffer| % RECORD_SIZE == 0 && |buffer| <= 256000
      && NoCrash(history) && NoCrash(recorded)
    }

    /** initLogger. */
    constructor ()
      ensures Valid() && fresh(nodes.Values) && log == EMPTY_LOG && totalLogs == 0
      ensures state == 0 && buffer == "" && sent == "" && history == [] && recorded == []
    {
      var r := new LoggerNode("", null, Root);
      root := r;
      state, buffer, sent, totalLogs := 0, "", "", 0;
      nodes := map[Root := r];
      log := EMPTY_LOG;
      history, recorded := [], [];
    }

    method AddChild(node: LoggerNode, name: string, ghost at: Path) returns (child: LoggerNode)
      requires TreeValid() && at in nodes && nodes[at] == node && Child(at, name) !in log && name != ""
      modifies this`nodes, this`log, node
      ensures TreeValid() && log == WithChild(old(log), at, name)
      ensures nodes == old(nodes)[Child(at, name) := child] && fresh(child)
    {
      hide WellFormed, AreChildren, Shows;
      ghost var p := Child(at, name);
      ChildAdded(log, at, name);
      ghost var before, entries := nodes, log;
      child := new LoggerNode(name, node, p);
      assert Shows(node, log[at], at, before);
      Unfold(node, log[at], at, before);
      ChildrenStay(node.children, log[at].children, at, before, p, child);
      NoChildren(p, before[p := child]);
      node.children := node.children + [child];
      nodes := before[p := child];
      log := WithChild(log, at, name);
      Fold(node, log[at], at, nodes);
      Fold(child, log[p], p, nodes);
      forall q | q in nodes ensures Shows(nodes[q], log[q], q, nodes) {
        if q != p && q != at {
          assert before[q].place != node.place;
          assert Shows(before[q], entries[q], q, before);
          ShowsStill(before[q], entries[q], q, before, p, child);
        }
      }
    }

    /** The scan of the children for a name. */
    method FindChild(node: LoggerNode, name: string, ghost at: Path) returns (next: LoggerNode?)
      requires TreeValid() && at in nodes && nodes[at] == node
      ensures if Child(at, name) in nodes then next == nodes[Child(at, name)] else next == null
    {
      assert Shows(node, log[at], at, nodes);
      forall i | 0 <= i < |node.children| ensures node.children[i].name == log[at].children[i] {
        assert nodes[Child(at, log[at].children[i])] == node.children[i];
      }
      for i := 0 to |node.children|
        invariant name !in log[at].children[..i]
      {
        if node.children[i].name == name { return node.children[i]; }
      }
      next := null;
    }

    /** getLoggerNode. */
    method GetLoggerNode(node: LoggerNode, text: string, ghost at: Path)
      returns (found: LoggerNode?, ghost path: Path)
      requires TreeValid() && at in nodes && nodes[at] == node
      modifies this`nodes, this`log, nodes.Values
      ensures TreeValid() && fresh(nodes.Values - old(nodes.Values))
      ensures match Walk(old(log), at, text)
        case Missing(l) => log == l && found == null
        case Found(l, p) => log == l && path == p && path in nodes && found == nodes[path]
      decreases |text|
    {
      hide WellFormed, TreeValid, Walk, WithChild, Segment, AreChildren, Shows;
      WalkStep(log, at, text);
      path := at;
      if text == "" { return node, path; }
      var t := SkipColon(text);
      var current := ReadName(t);
      if |current| > NAME_SIZE { return null, path; }
      var next := FindChild(node, current, at);
      if next == null {
        if current == "" { return null, path; }
        next := AddChild(node, current, at);
      }
      found, path := GetLoggerNode(next, t[|current|..], Child(at, current));
    }

    /** addLogMessage. */
    method AddLogMessage(node: LoggerNode, replace: int, text: string, ghost at: Path)
      requires TreeValid() && at in nodes && nodes[at] == node
      modifies this`log, node`messages
      ensures TreeValid() && log == PutAt(old(log), at, replace, text)
    {
      hide WellFormed, AreChildren, Shows, Put;
      PutKeeps(log, at, replace, text);
      ghost var entries := log;
      assert Shows(node, log[at], at, nodes);
      Unfold(node, log[at], at, nodes);
      PutIs(node.messages, replace, text);
      if 0 <= replace < |node.messages| {
        node.messages := node.messages[replace := text];
      } else {
        node.messages := node.messages + [text];
      }
      log := PutAt(entries, at, replace, text);
      Fold(node, log[at], at, nodes);
      forall q | q in nodes ensures Shows(nodes[q], log[q], q, nodes) {
        if q != at {
          assert nodes[q].place != node.place;
          assert Shows(nodes[q], entries[q], q, nodes);
        }
      }
    }

    /** updateLogger. */
    method UpdateLogger(m: Message) returns (outcome: Outcome)
      requires TreeValid()
      modifies this`nodes, this`log, this`totalLogs, nodes.Values
      ensures TreeValid() && fresh(nodes.Values - old(nodes.Values))
      ensures Updated(log, outcome) == Update(old(log), m)
      ensures totalLogs == old(totalLogs) + if outcome == Success then 1 else 0
    {
      hide WellFormed, TreeValid, Walk, PutAt, ParseOptions, Replace, ReadsNull;
      var node, path := GetLoggerNode(root, m.node, Root);
      if node == null { return BadState; }
      var options: seq<LoggerOption> := [];
      if m.options.Some? { options := ParseLoggerOptions(m.options.value, options); }
      assert options == if m.options.None? then [] else ParseOptions(m.options.value);
      NothingRead();
      var replace := ProcessLoggerOptions(options);
      if replace == None { return Crash; }
      AddLogMessage(node, replace.value, m.text, path);
      totalLogs := totalLogs + 1;
      outcome := Success;
    }

    /** The flush of runLoggerWorkload: the buffer goes out whole. */
    method Flush()
      requires Valid()
      modifies this`buffer, this`sent
      ensures Valid() && buffer == "" && sent == old(sent + buffer)
    {
      sent := sent + buffer;
      buffer := "";
    }

    /** handleLogMessage: the message enters the tree, and if a peer is connected, its record enters
        the buffer, which is flushed first when it is full. Nothing is promised about a process that
        crashed. */
    method HandleLogMessage(m: Message) returns (outcome: Outcome)
      requires Valid()
      modifies this`nodes, this`log, this`totalLogs, this`buffer, this`sent, this`history, this`recorded, nodes.Values
      ensures fresh(nodes.Values - old(nodes.Values))
      ensures outcome == Update(old(log), m).outcome && (outcome == Crash <==> Crashes(m))
      ensures outcome != Crash ==>
        && Valid() && log == Update(old(log), m).log
        && totalLogs == old(totalLogs) + (if outcome == Success then 1 else 0)
        && history == old(history) + [m]
        && recorded == old(recorded) + (if outcome == Success && state == 2 then [m] else [])
        && (state == 2 && old(recorded) == Accepted(old(history)) ==> recorded == Accepted(history))
    {
      hide TreeValid, Update, Records, Replay, Record, Accepted, WellFormed, NoCrash, Crashes, Succeeds;
      OutcomeIs(log, m);
      ReplayMore(history, m);
      AcceptedMore(history, m);
      NoCrashMore(history, m);
      NoCrashMore(recorded, m);
      outcome := UpdateLogger(m);
      if outcome == Crash { return; }
      history := history + [m];
      if outcome == BadState { return; }
      if state == 2 {
        if |buffer| >= 256000 { Flush(); }
        RecordsMore(recorded, m);
        buffer := buffer + Record(m);
        recorded := recorded + [m];
      }
    }
  }

  /** The process survived these messages. */
  ghost predicate NoCrash(ms: seq<Message>) {
    forall m <- ms :: !Crashes(m)
  }

  lemma NoCrashMore(ms: seq<Message>, m: Message)
    requires NoCrash(ms)
    ensures NoCrash(ms + [m]) <==> !Crashes(m)
  {
    assert m in ms + [m];
  }

  lemma NothingRead()
    ensures !ReadsNull([])
  {
  }

  lemma WalkStep(log: Log, at: Path, text: string)
    requires at in log
    ensures Walk(log, at, text)
         == if text == "" then Found(log, at)
            else
              var t := SkipColon(text);
              var name := Segment(t);
              var next := Child(at, name);
              if |name| > NAME_SIZE then Missing(log)
              else if next in log then Walk(log, next, t[|name|..])
              else if name == "" then Missing(log)
              else Walk(WithChild(log, at, name), next, t[|name|..])
  {
    hide Segment;
  }

  lemma PutIs(messages: seq<string>, replace: int, text: string)
    ensures Put(messages, replace, text)
         == if 0 <= replace < |messages| then messages[replace := text] else messages + [text]
  {
  }

  lemma PutKeeps(log: Log, at: Path, replace: int, text: string)
    requires WellFormed(log) && at in log
    ensures WellFormed(PutAt(log, at, replace, text))
  {
  }

  /** What was sent is the records of the first messages recorded. */
  lemma SentRecords(logger: Logger)
    requires logger.Valid()
    ensures var k := |logger.sent| / RECORD_SIZE;
      k <= |logger.recorded| && logger.sent == Records(logger.recorded[..k]) && NoCrash(logger.recorded[..k])
  {
    hide Records, Logger.TreeValid, Replay;
    var k := |logger.sent| / RECORD_SIZE;
    assert |logger.sent| + |logger.buffer| == RECORD_SIZE * |logger.recorded|;
    assert |logger.sent| == RECORD_SIZE * k;
    RecordsSplit(logger.recorded, k);
    assert logger.sent == (logger.sent + logger.buffer)[..RECORD_SIZE * k];
  }

  /** The loop over the characters of a name. */
  method ReadName(t: string) returns (name: string)
    ensures name == Segment(t)
  {
    hide Segment;
    var length := 0;
    assert t[0..] == t && "" + Segment(t) == Segment(t);
    while length < |t| && t[length] != ':'
      invariant length <= |t| && Segment(t) == t[..length] + Segment(t[length..])
    {
      SegmentStep(t, length);
      length := length + 1;
    }
    SegmentStep(t, length);
    name := t[..length];
  }

  lemma SegmentStep(t: string, i: nat)
    requires i <= |t|
    ensures t[..i] + Segment(t[i..])
         == if i == |t| || t[i] == ':' then t[..i] else t[..i + 1] + Segment(t[i + 1..])
  {
    if i < |t| && t[i] != ':' {
      assert t[i..][1..] == t[i + 1..];
      assert t[..i + 1] == t[..i] + [t[i]];
      assert t[..i] + ([t[i]] + Segment(t[i + 1..])) == t[..i] + [t[i]] + Segment(t[i + 1..]);
    }
  }
}
