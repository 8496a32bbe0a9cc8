/** The log tree of src/lib/nh-monitor/Logger.c as a value: what one log message does to it. */
module LoggerTree {
  import opened CText

  const NAME_SIZE: nat := 254

  /** A place in the tree. */
  datatype Path = Root | Child(parent: Path, name: string)

  /** A node: the names of its children and its messages, both in order. */
  datatype Entry = Entry(children: seq<string>, messages: seq<string>)

  /** The tree, node by node. */
  type Log = map<Path, Entry>

  datatype Message = Message(node: string, options: Option<string>, text: string)

  const EMPTY_LOG: Log := map[Root := Entry([], [])]

  /** Every node but the root is a child of its parent, and no child is without a name. */
  ghost predicate WellFormed(log: Log) {
    && Root in log
    && (forall p :: p in log && p.Child? ==> p.parent in log && p.name in log[p.parent].children)
    && (forall p, name :: p in log && name in log[p].children ==> Child(p, name) in log && name != "")
  }

  // ---- getLoggerNode ----

  /** The name that t starts with. */
  function Segment(t: string): (r: string)
    ensures |r| <= |t| && r == t[..|r|] && ':' !in r
    ensures |r| < |t| ==> t[|r|] == ':'
  {
    if t == "" || t[0] == ':' then "" else [t[0]] + Segment(t[1..])
  }

  function SkipColon(text: string): (r: string)
    ensures |r| <= |text|
  {
    if text != "" && text[0] == ':' then text[1..] else text
  }

  /** The place a node text names, seen from another. */
  function PathFrom(at: Path, text: string): Path
    decreases |text|
  {
    if text == "" then at
    else
      var t := SkipColon(text);
      var name := Segment(t);
      PathFrom(Child(at, name), t[|name|..])
  }

  function WithChild(log: Log, at: Path, name: string): Log
    requires at in log
  {
    log[at := Entry(log[at].children + [name], log[at].messages)][Child(at, name) := Entry([], [])]
  }

  datatype Walked = Missing(log: Log) | Found(log: Log, path: Path)

  /** getLoggerNode: down from a node, creating what is not there, until a name is empty or too
      long. */
  function Walk(log: Log, at: Path, text: string): Walked
    decreases |text|
  {
    if text == "" then Found(log, at)
    else
      var t := SkipColon(text);
      var name := Segment(t);
      if |name| > NAME_SIZE then Missing(log)
      else if Child(at, name) in log then Walk(log, Child(at, name), t[|name|..])
      else if name == "" || at !in log then Missing(log)
      else Walk(WithChild(log, at, name), Child(at, name), t[|name|..])
  }

  // ---- options ----

  datatype LoggerOption = LoggerOption(name: string, value: string)

  /** What s holds in front of the first of the given characters. */
  function Until(s: string, stops: string): (r: string)
    ensures |r| <= |s| && r == s[..|r|]
    ensures |r| < |s| ==> s[|r|] in stops
  {
    if s == "" || s[0] in stops then "" else [s[0]] + Until(s[1..], stops)
  }

  /** The first option of a text: the last one, if it has no '='; otherwise its value and, behind
      a ';', the text of the others. */
  datatype FirstOption = Bare(name: string) | Pair(name: string, value: string, others: Option<string>)

  function ScanOption(text: string): (r: FirstOption)
    ensures r.Pair? && r.others.Some? ==> |r.others.value| < |text|
  {
    var name := Until(text, "=;");
    var s := text[|name|..];
    if s == "" || s[0] != '=' then Bare(name)
    else
      var value := Until(s[1..], ";");
      var rest := s[1..][|value|..];
      Pair(name, value, if rest == "" then None else Some(rest[1..]))
  }

  function OptionIf(name: string, value: string, present: bool): seq<LoggerOption> {
    if present then [LoggerOption(name, value)] else []
  }

  /** parseLoggerOptions. */
  function ParseOptions(text: string): seq<LoggerOption>
    decreases |text|
  {
    match ScanOption(text)
    case Bare(name) => OptionIf(name, "", name != "")
    case Pair(name, value, others) =>
      OptionIf(name, value, value != "") + if others.None? then [] else ParseOptions(others.value)
  }

  function Atoi(s: string): int {
    var r := ScanInt(s);
    if r.Match? then r.value else 0
  }

  /** processLoggerOptions: the last option "replace" counts. */
  function Replace(options: seq<LoggerOption>): int {
    if options == [] then -1
    else
      var last := options[|options| - 1];
      if last.name == "replace" then Atoi(last.value) else Replace(options[..|options| - 1])
  }

  function ReplaceOf(options: Option<string>): int {
    Replace(if options.None? then [] else ParseOptions(options.value))
  }

  /** processLoggerOptions compares every name and converts the value of "replace"; the text of a
      string that nothing was appended to is NULL. */
  predicate ReadsNull(options: seq<LoggerOption>) {
    exists o <- options :: o.name == "" || (o.name == "replace" && o.value == "")
  }

  predicate OptionsCrash(options: Option<string>) {
    options.Some? && ReadsNull(ParseOptions(options.value))
  }

  // ---- one message ----

  /** addLogMessage. */
  function Put(messages: seq<string>, replace: int, text: string): seq<string> {
    if 0 <= replace < |messages| then messages[replace := text] else messages + [text]
  }

  function PutAt(log: Log, at: Path, replace: int, text: string): Log
    requires at in log
  {
    log[at := Entry(log[at].children, Put(log[at].messages, replace, text))]
  }

  /** The two return values, and the process that is gone. */
  datatype Outcome = Success | BadState | Crash

  datatype Updated = Updated(log: Log, outcome: Outcome)

  /** updateLogger. */
  function Update(log: Log, m: Message): Updated {
    var walked := Walk(log, Root, m.node);
    if walked.Missing? || walked.path !in walked.log then Updated(walked.log, BadState)
    else if OptionsCrash(m.options) then Updated(walked.log, Crash)
    else Updated(PutAt(walked.log, walked.path, ReplaceOf(m.options), m.text), Success)
  }

  // ---- what it means ----

  /** Every name is there and fits. */
  predicate PathOk(p: Path) {
    p.Root? || (0 < |p.name| <= NAME_SIZE && PathOk(p.parent))
  }

  /** p itself or one of its ancestors. */
  predicate IsAbove(q: Path, p: Path) {
    q == p || (p.Child? && IsAbove(q, p.parent))
  }

  /** The message is entered. */
  predicate Succeeds(m: Message) {
    PathOk(PathFrom(Root, m.node)) && !OptionsCrash(m.options)
  }

  predicate Crashes(m: Message) {
    PathOk(PathFrom(Root, m.node)) && OptionsCrash(m.options)
  }

  function MessagesAt(log: Log, path: Path): seq<string> {
    if path in log then log[path].messages else []
  }

  lemma ChildAdded(log: Log, at: Path, name: string)
    requires WellFormed(log) && at in log && Child(at, name) !in log && name != ""
    ensures var r := WithChild(log, at, name);
      && WellFormed(r) && (forall q :: MessagesAt(r, q) == MessagesAt(log, q))
      && (forall q :: q in r <==> q in log || q == Child(at, name))
  {
    var r := WithChild(log, at, name);
    forall p | p in r && p.Child?
      ensures p.parent in r && p.name in r[p.parent].children
    {
      if p != Child(at, name) { assert p in log; }
    }
    forall p, n | p in r && n in r[p].children
      ensures Child(p, n) in r && n != ""
    {
      if p in log && !(p == at && n == name) { assert n in log[p].children; }
    }
  }

  lemma {:induction false} PathFromOk(at: Path, text: string)
    requires PathOk(PathFrom(at, text))
    ensures PathOk(at)
    decreases |text|
  {
    if text != "" {
      var t := SkipColon(text);
      var name := Segment(t);
      PathFromOk(Child(at, name), t[|name|..]);
    }
  }

  /** The walk succeeds exactly when every name is there and fits; it ends at the named node, which
      is then in the tree, and no message is touched. */
  lemma {:induction false} WalkMeaning(log: Log, at: Path, text: string)
    requires WellFormed(log) && at in log && PathOk(at)
    ensures var r := Walk(log, at, text);
      && WellFormed(r.log) && (forall q :: MessagesAt(r.log, q) == MessagesAt(log, q))
      && (r.Found? <==> PathOk(PathFrom(at, text)))
      && (r.Found? ==> r.path == PathFrom(at, text) && r.path in r.log)
      && (forall q :: q in log ==> q in r.log)
      && (r.Found? ==> forall q :: q in r.log && q !in log ==> IsAbove(q, r.path))
    decreases |text|
  {
    if text != "" {
      var t := SkipColon(text);
      var name := Segment(t);
      var rest := t[|name|..];
      var next := Child(at, name);
      if 0 < |name| <= NAME_SIZE {
        if next in log {
          WalkMeaning(log, next, rest);
        } else {
          ChildAdded(log, at, name);
          WalkMeaning(WithChild(log, at, name), next, rest);
          AboveStart(next, rest);
        }
      } else if PathOk(PathFrom(next, rest)) {
        PathFromOk(next, rest);
      }
    }
  }

  /** A walk adds children only behind those that are there. */
  lemma {:induction false} ChildrenKept(log: Log, at: Path, text: string, q: Path)
    requires q in log && at in log
    ensures var r := Walk(log, at, text).log;
      q in r && log[q].children <= r[q].children
    decreases |text|
  {
    if text != "" {
      var t := SkipColon(text);
      var name := Segment(t);
      var rest := t[|name|..];
      var next := Child(at, name);
      if next in log {
        ChildrenKept(log, next, rest, q);
      } else if 0 < |name| <= NAME_SIZE {
        ChildrenKept(WithChild(log, at, name), next, rest, q);
      }
    }
  }

  lemma {:induction false} AboveStart(at: Path, text: string)
    ensures IsAbove(at, PathFrom(at, text))
    decreases |text|
  {
    if text != "" {
      var t := SkipColon(text);
      var name := Segment(t);
      AboveStart(Child(at, name), t[|name|..]);
      AboveParent(at, name, PathFrom(at, text));
    }
  }

  lemma {:induction false} AboveParent(at: Path, name: string, p: Path)
    requires IsAbove(Child(at, name), p)
    ensures IsAbove(at, p)
  {
    if p != Child(at, name) { AboveParent(at, name, p.parent); }
  }

  /** What a message does: it lands at the named node, by its options, and changes no other message;
      it is refused exactly when a name is empty or too long, and kills the process exactly when it
      is not refused and an option has no name or "replace" no value. The nodes it adds are the
      named one and its ancestors. */
  lemma UpdateMeaning(log: Log, m: Message)
    requires WellFormed(log)
    ensures var r := Update(log, m);
      && WellFormed(r.log) && (r.outcome == Success <==> Succeeds(m)) && (r.outcome == Crash <==> Crashes(m))
      && (forall q :: MessagesAt(r.log, q)
            == if r.outcome == Success && q == PathFrom(Root, m.node)
               then Put(MessagesAt(log, q), ReplaceOf(m.options), m.text)
               else MessagesAt(log, q))
      && (forall q :: q in log ==> q in r.log)
      && (r.outcome == Success ==> forall q :: q in r.log <==> q in log || IsAbove(q, PathFrom(Root, m.node)))
  {
    hide Walk, PathFrom, PathOk, ReplaceOf, Put, IsAbove, OptionsCrash;
    RootOk();
    WalkMeaning(log, Root, m.node);
    var walked := Walk(log, Root, m.node);
    if walked.Found? {
      forall q | IsAbove(q, walked.path) ensures q in walked.log { AncestorIn(walked.log, walked.path, q); }
    }
  }

  lemma OutcomeIs(log: Log, m: Message)
    requires WellFormed(log)
    ensures Update(log, m).outcome == if Crashes(m) then Crash else if Succeeds(m) then Success else BadState
  {
    hide Update, PathOk, OptionsCrash, WellFormed;
    UpdateMeaning(log, m);
  }

  lemma RootOk()
    ensures PathOk(Root)
  {
  }

  lemma {:induction false} AncestorIn(log: Log, path: Path, q: Path)
    requires WellFormed(log) && path in log && IsAbove(q, path)
    ensures q in log
  {
    if q != path { AncestorIn(log, path.parent, q); }
  }

  // ---- which nodes a message makes ----

  /** The deepest place that the valid names of a text lead to. */
  function Reached(at: Path, text: string): Path
    decreases |text|
  {
    if text == "" then at
    else
      var t := SkipColon(text);
      var name := Segment(t);
      if 0 < |name| <= NAME_SIZE then Reached(Child(at, name), t[|name|..]) else at
  }

  lemma {:induction false} ReachedBelow(at: Path, text: string)
    ensures IsAbove(at, Reached(at, text))
    decreases |text|
  {
    if text != "" {
      var t := SkipColon(text);
      var name := Segment(t);
      if 0 < |name| <= NAME_SIZE {
        ReachedBelow(Child(at, name), t[|name|..]);
        AboveParent(at, name, Reached(at, text));
      }
    }
  }

  /** A text of valid names leads all the way. */
  lemma {:induction false} ReachedAll(at: Path, text: string)
    requires PathOk(PathFrom(at, text))
    ensures Reached(at, text) == PathFrom(at, text)
    decreases |text|
  {
    if text != "" {
      var t := SkipColon(text);
      var name := Segment(t);
      PathFromOk(Child(at, name), t[|name|..]);
      ReachedAll(Child(at, name), t[|name|..]);
    }
  }

  /** A walk, successful or not, makes the place it reached and its ancestors. */
  lemma {:induction false} WalkNodes(log: Log, at: Path, text: string, q: Path)
    requires WellFormed(log) && at in log
    ensures q in Walk(log, at, text).log <==> q in log || IsAbove(q, Reached(at, text))
    decreases |text|
  {
    if IsAbove(q, at) { AncestorIn(log, at, q); }
    if text != "" {
      var t := SkipColon(text);
      var name := Segment(t);
      var rest := t[|name|..];
      var next := Child(at, name);
      if next in log {
        ValidName(log, at, name);
        if |name| <= NAME_SIZE { WalkNodes(log, next, rest, q); }
      } else if 0 < |name| <= NAME_SIZE {
        ChildAdded(log, at, name);
        WalkNodes(WithChild(log, at, name), next, rest, q);
        ReachedBelow(next, rest);
      }
    }
  }

  lemma ValidName(log: Log, at: Path, name: string)
    requires WellFormed(log) && Child(at, name) in log
    ensures name != "" && at in log && name in log[at].children
  {
    assert Child(at, name).parent == at;
  }

  /** A walk to a place that is there already changes nothing. */
  lemma {:induction false} WalkStays(log: Log, at: Path, text: string)
    requires WellFormed(log) && at in log && Reached(at, text) in log
    ensures Walk(log, at, text).log == log
    decreases |text|
  {
    if text != "" {
      var t := SkipColon(text);
      var name := Segment(t);
      var rest := t[|name|..];
      if 0 < |name| <= NAME_SIZE {
        ReachedBelow(Child(at, name), rest);
        AncestorIn(log, Reached(at, text), Child(at, name));
        WalkStays(log, Child(at, name), rest);
      }
    }
  }

  // ---- the order of children ----

  /** The name below `at` on the way to p. */
  function NextName(at: Path, p: Path): Option<string> {
    if p.Root? then None else if p.parent == at then Some(p.name) else NextName(at, p.parent)
  }

  function AddName(names: seq<string>, name: Option<string>): seq<string> {
    if name.None? || name.value in names then names else names + [name.value]
  }

  function ChildrenAt(log: Log, at: Path): seq<string> {
    if at in log then log[at].children else []
  }

  lemma {:induction false} NextNameIn(log: Log, at: Path, p: Path)
    requires WellFormed(log) && p in log && NextName(at, p).Some?
    ensures at in log && NextName(at, p).value in log[at].children
  {
    if p.parent != at { NextNameIn(log, at, p.parent); }
  }

  function Depth(p: Path): nat {
    if p.Root? then 0 else 1 + Depth(p.parent)
  }

  lemma {:induction false} AboveDepth(q: Path, p: Path)
    requires IsAbove(q, p)
    ensures Depth(q) <= Depth(p) && (q != p ==> Depth(q) < Depth(p))
  {
    if q != p { AboveDepth(q, p.parent); }
  }

  lemma {:induction false} NextNameIs(at: Path, name: string, p: Path)
    requires IsAbove(Child(at, name), p)
    ensures NextName(at, p) == Some(name)
  {
    AboveDepth(Child(at, name), p);
    if p != Child(at, name) { NextNameIs(at, name, p.parent); AboveDepth(Child(at, name), p.parent); }
  }

  lemma NoNewName(log: Log, at: Path, p: Path)
    requires WellFormed(log) && p in log
    ensures AddName(ChildrenAt(log, at), NextName(at, p)) == ChildrenAt(log, at)
  {
    if NextName(at, p).Some? { NextNameIn(log, at, p); }
  }

  /** The first new child on a walk decides about its parent; nothing changes for the others yet. */
  lemma FirstNewName(log: Log, from: Path, name: string, p: Path, at: Path)
    requires WellFormed(log) && from in log && Child(from, name) !in log && name != "" && IsAbove(Child(from, name), p)
    ensures AddName(ChildrenAt(WithChild(log, from, name), at), NextName(at, p))
         == AddName(ChildrenAt(log, at), NextName(at, p))
  {
    hide NextName, IsAbove;
    if at == from {
      NextNameIs(from, name, p);
      assert name !in log[from].children;
    } else if at == Child(from, name) {
      assert ChildrenAt(log, at) == [];
    }
  }

  /** A walk adds at most one name to the children of a node, at the end. */
  lemma {:induction false} WalkChildren(log: Log, from: Path, text: string, at: Path)
    requires WellFormed(log) && from in log
    ensures ChildrenAt(Walk(log, from, text).log, at)
         == AddName(ChildrenAt(log, at), NextName(at, Reached(from, text)))
    decreases |text|
  {
    hide NextName, AddName, IsAbove, WellFormed, ChildrenAt;
    NoNewName(log, at, from);
    if text != "" {
      var t := SkipColon(text);
      var name := Segment(t);
      var rest := t[|name|..];
      var next := Child(from, name);
      if next in log {
        ValidName(log, from, name);
        if |name| <= NAME_SIZE { WalkChildren(log, next, rest, at); }
      } else if 0 < |name| <= NAME_SIZE {
        ChildAdded(log, from, name);
        WalkChildren(WithChild(log, from, name), next, rest, at);
        ReachedBelow(next, rest);
        FirstNewName(log, from, name, Reached(next, rest), at);
      }
    }
  }

  // ---- options: the parser undoes the printer ----

  function PrintOptions(options: seq<LoggerOption>): string {
    if options == [] then "" else options[0].name + "=" + options[0].value + ";" + PrintOptions(options[1..])
  }

  ghost predicate Printable(o: LoggerOption) {
    '=' !in o.name && ';' !in o.name && o.value != "" && ';' !in o.value
  }

  lemma {:induction false} UntilIs(s: string, rest: string, stops: string)
    requires (forall c <- s :: c !in stops) && (rest == "" || rest[0] in stops)
    ensures Until(s + rest, stops) == s
  {
    if s == "" {
      assert s + rest == rest;
    } else {
      assert (s + rest)[0] == s[0] && (s + rest)[1..] == s[1..] + rest;
      UntilIs(s[1..], rest, stops);
    }
  }

  lemma Behind(s: string, a: string, b: string)
    requires s == a + b
    ensures s[|a|..] == b
  {
  }

  lemma ScanPrinted(o: LoggerOption, rest: string)
    requires Printable(o)
    ensures ScanOption(o.name + "=" + o.value + ";" + rest) == Pair(o.name, o.value, Some(rest))
  {
    hide Until, Printable;
    var end := ";" + rest;
    var u := o.value + end;
    var s := o.name + "=" + o.value + ";" + rest;
    assert s == o.name + ("=" + u);
    UntilNames(o, "=" + u, end);
    Behind(s, o.name, "=" + u);
    Behind("=" + u, "=", u);
    Behind(u, o.value, end);
    Behind(end, ";", rest);
  }

  lemma UntilNames(o: LoggerOption, tail: string, end: string)
    requires Printable(o) && tail != "" && tail[0] == '=' && end != "" && end[0] == ';'
    ensures Until(o.name + tail, "=;") == o.name && Until(o.value + end, ";") == o.value && o.value != ""
  {
    UntilIs(o.name, tail, "=;");
    UntilIs(o.value, end, ";");
  }

  lemma ParseFirst(o: LoggerOption, rest: string)
    requires Printable(o)
    ensures ParseOptions(o.name + "=" + o.value + ";" + rest) == [o] + ParseOptions(rest)
  {
    hide ScanOption, Printable, Until;
    ScanPrinted(o, rest);
    UntilNames(o, "=", ";");
  }

  lemma {:induction false} OptionsParsed(options: seq<LoggerOption>)
    requires forall o <- options :: Printable(o)
    ensures ParseOptions(PrintOptions(options)) == options
  {
    if options != [] {
      hide ParseOptions;
      assert options[0] in options;
      ParseFirst(options[0], PrintOptions(options[1..]));
      OptionsParsed(options[1..]);
      assert [options[0]] + options[1..] == options;
    } else {
      ParseEmpty();
    }
  }

  lemma ParseEmpty()
    ensures ParseOptions("") == []
  {
  }
}
