/** Log messages as a caller writes them (src/lib/nh-monitor/Logger.c): names joined by ':', options
    "name=value;", and where the message is found afterwards. */
module LogMeaning {
  import opened CText
  import opened CNumbers
  import opened LoggerTree
  import opened LogRecord

  // ---- names ----

  /** A name that can be written into a node text and fits. */
  predicate IsName(name: string) {
    0 < |name| <= 254 && ':' !in name
  }

  /** "a:b:c". */
  function Joined(names: seq<string>): string {
    if names == [] then ""
    else if |names| == 1 then names[0]
    else names[0] + ":" + Joined(names[1..])
  }

  function Below(at: Path, names: seq<string>): Path
    decreases |names|
  {
    if names == [] then at else Below(Child(at, names[0]), names[1..])
  }

  lemma {:induction false} SegmentIs(name: string, rest: string)
    requires ':' !in name && (rest == "" || rest[0] == ':')
    ensures Segment(name + rest) == name
  {
    if name == "" {
      assert name + rest == rest;
    } else {
      assert name[0] in name;
      assert (name + rest)[1..] == name[1..] + rest;
      SegmentIs(name[1..], rest);
    }
  }

  /** A node text leads from name to name, behind a colon or not. */
  lemma {:induction false} NamesLead(at: Path, names: seq<string>, colon: string)
    requires names != [] && (forall name <- names :: IsName(name)) && (colon == "" || colon == ":") && PathOk(at)
    ensures PathFrom(at, colon + Joined(names)) == Below(at, names) && PathOk(Below(at, names))
    decreases |names|
  {
    hide Segment;
    var name := names[0];
    assert name in names;
    var rest := if |names| == 1 then "" else ":" + Joined(names[1..]);
    var text := colon + Joined(names);
    assert Joined(names) == name + rest;
    NameFirst(colon, name, rest);
    SegmentIs(name, rest);
    assert (name + rest)[|name|..] == rest;
    if |names| == 1 {
      assert Below(Child(at, name), names[1..]) == Child(at, name);
    } else {
      NamesLead(Child(at, name), names[1..], ":");
    }
  }

  lemma NameFirst(colon: string, name: string, rest: string)
    requires IsName(name) && (colon == "" || colon == ":")
    ensures colon + (name + rest) != "" && SkipColon(colon + (name + rest)) == name + rest
  {
    assert name[0] in name;
    if colon == ":" {
      assert (colon + (name + rest))[1..] == name + rest;
    } else {
      assert colon + (name + rest) == name + rest;
    }
  }

  // ---- options ----

  /** Option texts: a value; no value, which drops the option; and a name alone, which ends the
      text, whatever follows. */
  lemma OptionForms(name: string, value: string, rest: string)
    requires '=' !in name && ';' !in name && ';' !in value
    ensures value != "" ==>
      ParseOptions(name + "=" + value + ";" + rest) == [LoggerOption(name, value)] + ParseOptions(rest)
    ensures value != "" ==> ParseOptions(name + "=" + value) == [LoggerOption(name, value)]
    ensures ParseOptions(name + "=;" + rest) == ParseOptions(rest)
    ensures name != "" ==> ParseOptions(name) == ParseOptions(name + ";" + rest) == [LoggerOption(name, "")]
  {
    hide *;
    if value != "" {
      PrintableIs(name, value);
      ParseFirst(LoggerOption(name, value), rest);
      LastOption(name, value);
    }
    NoValue(name, rest);
    if name != "" {
      NameAlone(name, "");
      assert name + "" == name;
      NameAlone(name, ";" + rest);
      assert name + (";" + rest) == name + ";" + rest;
    }
  }

  lemma PrintableIs(name: string, value: string)
    requires '=' !in name && ';' !in name && value != "" && ';' !in value
    ensures Printable(LoggerOption(name, value))
  {
  }

  lemma LastOption(name: string, value: string)
    requires '=' !in name && ';' !in name && value != "" && ';' !in value
    ensures ParseOptions(name + "=" + value) == [LoggerOption(name, value)]
  {
    hide Until;
    var text := name + "=" + value;
    assert text == name + ("=" + value);
    UntilIs(name, "=" + value, "=;");
    assert value + "" == value;
    UntilIs(value, "", ";");
    assert text[|name|..] == "=" + value;
    assert ("=" + value)[1..] == value && value[|value|..] == "";
  }

  lemma NoValue(name: string, rest: string)
    requires '=' !in name && ';' !in name
    ensures ParseOptions(name + "=;" + rest) == ParseOptions(rest)
  {
    hide Until;
    var text := name + "=;" + rest;
    assert text == name + ("=;" + rest);
    UntilIs(name, "=;" + rest, "=;");
    assert text[|name|..] == "=;" + rest;
    assert ("=;" + rest)[1..] == "" + (";" + rest);
    UntilIs("", ";" + rest, ";");
    assert (";" + rest)[1..] == rest;
    assert [] + ParseOptions(rest) == ParseOptions(rest);
  }

  lemma NameAlone(name: string, rest: string)
    requires '=' !in name && ';' !in name && name != "" && (rest == "" || rest[0] == ';')
    ensures ParseOptions(name + rest) == [LoggerOption(name, "")]
  {
    hide Until;
    UntilIs(name, rest, "=;");
    assert (name + rest)[|name|..] == rest;
  }

  // ---- the option "replace" ----

  /** Options that parseLoggerOptions and processLoggerOptions take: a name and a value each. */
  predicate Proper(options: seq<LoggerOption>) {
    forall o <- options :: o.name != "" && '=' !in o.name && ';' !in o.name && o.value != "" && ';' !in o.value
  }

  lemma ProperParsed(options: seq<LoggerOption>)
    requires Proper(options)
    ensures ParseOptions(PrintOptions(options)) == options && !OptionsCrash(Some(PrintOptions(options)))
  {
    hide ParseOptions, PrintOptions;
    assert forall o <- options :: Printable(o);
    OptionsParsed(options);
  }

  /** The last "replace" counts. */
  lemma {:induction false} LastReplace(before: seq<LoggerOption>, o: LoggerOption, after: seq<LoggerOption>)
    requires o.name == "replace" && forall p <- after :: p.name != "replace"
    ensures Replace(before + [o] + after) == Atoi(o.value)
  {
    hide Atoi;
    if after == [] {
      assert before + [o] + after == before + [o];
    } else {
      var q := |after| - 1;
      assert after[q] in after;
      assert (before + [o] + after)[..|before| + 1 + q] == before + [o] + after[..q];
      LastReplace(before, o, after[..q]);
    }
  }

  lemma {:induction false} NoReplace(options: seq<LoggerOption>)
    requires forall o <- options :: o.name != "replace"
    ensures Replace(options) == -1
  {
    if options != [] {
      assert options[|options| - 1] in options;
      NoReplace(options[..|options| - 1]);
    }
  }

  lemma AtoiRead(digits: string, n: nat)
    requires Denotes(digits, n, 10) && n < 0x8000_0000
    ensures Atoi(digits) == n && Atoi("-" + digits) == 0 - n
    ensures ';' !in digits && digits != ""
  {
    hide Denotes, ScanInt;
    ScanRead("", "", digits, "", n);
    assert "" + "" + digits + "" == digits;
    ScanRead("", "-", digits, "", n);
    assert "" + "-" + digits + "" == "-" + digits;
    DenotesValue(digits, n, 10);
    NoSemicolon(digits);
  }

  lemma NoSemicolon(digits: string)
    requires AllDigits(digits, 10)
    ensures ';' !in digits
  {
  }

  /** Where a message lands: at the node its names lead to; nothing else changes. */
  lemma MessageLands(log: Log, names: seq<string>, options: Option<string>, text: string)
    requires WellFormed(log) && names != [] && (forall name <- names :: IsName(name)) && !OptionsCrash(options)
    ensures var r, at := Update(log, Message(Joined(names), options, text)), Below(Root, names);
      && r.outcome == Success
      && MessagesAt(r.log, at) == Put(MessagesAt(log, at), ReplaceOf(options), text)
      && forall q :: q != at ==> MessagesAt(r.log, q) == MessagesAt(log, q)
  {
    hide *;
    var m := Message(Joined(names), options, text);
    RootOk();
    NamesLead(Root, names, "");
    assert "" + Joined(names) == Joined(names);
    LandsOk(m, Below(Root, names));
    UpdateMeaning(log, m);
  }

  lemma LandsOk(m: Message, at: Path)
    requires PathFrom(Root, m.node) == at && PathOk(at) && !OptionsCrash(m.options)
    ensures Succeeds(m) && !Crashes(m)
  {
  }

  /** Without options, or without "replace" among them, a message is put behind the others. */
  lemma MessageAppended(log: Log, names: seq<string>, options: Option<seq<LoggerOption>>, text: string)
    requires WellFormed(log) && names != [] && forall name <- names :: IsName(name)
    requires options.Some? ==> Proper(options.value) && forall o <- options.value :: o.name != "replace"
    ensures var printed := if options.None? then None else Some(PrintOptions(options.value));
      var r, at := Update(log, Message(Joined(names), printed, text)), Below(Root, names);
      && r.outcome == Success && MessagesAt(r.log, at) == MessagesAt(log, at) + [text]
      && forall q :: q != at ==> MessagesAt(r.log, q) == MessagesAt(log, q)
  {
    hide Update, Joined, Below, IsName, ParseOptions, PrintOptions, Proper, ReadsNull, MessagesAt, Replace;
    var printed := if options.None? then None else Some(PrintOptions(options.value));
    if options.Some? {
      ProperParsed(options.value);
      NoReplace(options.value);
    } else {
      NoReplace([]);
    }
    MessageLands(log, names, printed, text);
  }

  /** "replace=n" replaces message number n of the node and leaves the others alone; it appends when
      there is no such message. */
  lemma MessageReplaces(log: Log, names: seq<string>, before: seq<LoggerOption>, digits: string, n: nat,
                        after: seq<LoggerOption>, text: string)
    requires WellFormed(log) && names != [] && forall name <- names :: IsName(name)
    requires Proper(before) && Proper(after) && Denotes(digits, n, 10) && n < 0x8000_0000
    requires forall o <- after :: o.name != "replace"
    ensures var options := PrintOptions(before + [LoggerOption("replace", digits)] + after);
      var r, at := Update(log, Message(Joined(names), Some(options), text)), Below(Root, names);
      var old', new' := MessagesAt(log, at), MessagesAt(r.log, at);
      && r.outcome == Success
      && (if n < |old'| then
            |new'| == |old'| && new'[n] == text && forall i :: 0 <= i < |old'| && i != n ==> new'[i] == old'[i]
          else new' == old' + [text])
      && forall q :: q != at ==> MessagesAt(r.log, q) == MessagesAt(log, q)
  {
    hide Update, Joined, Below, IsName, ParseOptions, PrintOptions, ReadsNull, MessagesAt, Replace, Denotes, Atoi;
    AtoiRead(digits, n);
    var o := LoggerOption("replace", digits);
    var all := before + [o] + after;
    AllProper(before, o, after);
    ProperParsed(all);
    LastReplace(before, o, after);
    MessageLands(log, names, Some(PrintOptions(all)), text);
  }

  lemma AllProper(before: seq<LoggerOption>, o: LoggerOption, after: seq<LoggerOption>)
    requires Proper(before) && Proper(after) && o.name == "replace" && o.value != "" && ';' !in o.value
    ensures Proper(before + [o] + after)
  {
  }

  /** A replace number below 0 appends. */
  lemma NegativeAppends(log: Log, names: seq<string>, digits: string, n: nat, text: string)
    requires WellFormed(log) && names != [] && forall name <- names :: IsName(name)
    requires Denotes(digits, n, 10) && 0 < n < 0x8000_0000
    ensures var options := PrintOptions([LoggerOption("replace", "-" + digits)]);
      var r, at := Update(log, Message(Joined(names), Some(options), text)), Below(Root, names);
      r.outcome == Success && MessagesAt(r.log, at) == MessagesAt(log, at) + [text]
  {
    hide Update, Joined, Below, IsName, ParseOptions, PrintOptions, ReadsNull, MessagesAt, Replace, Denotes, Atoi;
    AtoiRead(digits, n);
    var o := LoggerOption("replace", "-" + digits);
    AllProper([], o, []);
    assert [] + [o] + [] == [o];
    ProperParsed([o]);
    LastReplace([], o, []);
    MessageLands(log, names, Some(PrintOptions([o])), text);
  }

  // ---- what is refused, and what kills the process ----

  /** A name of more than 254 characters refuses the message. */
  lemma NameRefused(log: Log, name: string, options: Option<string>, text: string)
    requires WellFormed(log) && ':' !in name && |name| > 254
    ensures Update(log, Message(name, options, text)) == Updated(log, BadState)
  {
    hide Segment;
    SegmentIs(name, "");
    assert name + "" == name;
    assert name[0] in name;
  }

  /** Options with values, and maybe a name alone at the end, kill the process exactly when a name is
      empty or that last one is "replace". */
  lemma CrashIff(options: seq<LoggerOption>, last: string)
    requires (forall o <- options :: Printable(o)) && '=' !in last && ';' !in last
    ensures OptionsCrash(Some(PrintOptions(options) + last))
      <==> (exists o <- options :: o.name == "") || last == "replace"
  {
    hide PrintOptions, ParseOptions;
    OptionsAndName(options, last);
    var parsed := ParseOptions(PrintOptions(options) + last);
    if exists o <- options :: o.name == "" {
      var o :| o in options && o.name == "";
      assert o in parsed;
    }
    if last == "replace" { assert LoggerOption(last, "") in parsed; }
    if ReadsNull(parsed) {
      var o :| o in parsed && (o.name == "" || (o.name == "replace" && o.value == ""));
      assert o in options || o == LoggerOption(last, "");
    }
  }

  lemma {:induction false} OptionsAndName(options: seq<LoggerOption>, last: string)
    requires (forall o <- options :: Printable(o)) && '=' !in last && ';' !in last
    ensures ParseOptions(PrintOptions(options) + last)
         == options + if last == "" then [] else [LoggerOption(last, "")]
  {
    hide ParseOptions, Printable;
    if options == [] {
      assert PrintOptions(options) + last == last;
      if last == "" { ParseEmpty(); } else { NameAlone(last, ""); assert last + "" == last; }
    } else {
      var o, more := options[0], PrintOptions(options[1..]) + last;
      assert o in options;
      PrintFirst(options, last);
      ParseFirst(o, more);
      OptionsAndName(options[1..], last);
      assert [o] + options[1..] == options;
    }
  }

  lemma PrintFirst(options: seq<LoggerOption>, last: string)
    requires options != []
    ensures PrintOptions(options) + last
         == options[0].name + "=" + options[0].value + ";" + (PrintOptions(options[1..]) + last)
  {
  }

  /** A "replace" without a number counts as 0. */
  lemma NoNumberIsZero(value: string)
    requires NoDigits(value)
    ensures Atoi(value) == 0
  {
    hide ScanInt;
    NothingToScan(value);
  }

  // ---- records ----

  /** A record is 256 bytes long, and a message of up to 252 characters without NUL and without the
      separator is read from it as it was; no options arrive as "(null)", empty ones as none. */
  lemma RecordRead(m: Message)
    requires '\U{1F}' !in m.node && '\0' !in m.node && '\0' !in m.text
    requires m.options.Some? ==> '\U{1F}' !in m.options.value && '\0' !in m.options.value
    requires |m.node| + (if m.options.None? then 6 else |m.options.value|) + |m.text| <= 252
    ensures |Record(m)| == 256
    ensures Split(CStr(Record(m)))
         == Parts(m.node,
                  if m.options.None? then Some("(null)") else if m.options.value == "" then None else m.options,
                  m.text)
  {
    hide Split, CStr, Record;
    assert '\0' !in "(null)" && SEPARATOR !in "(null)";
    RecordFaithful(m);
  }

  /** Byte i of any record: the line as far as it fits into 254 bytes, and NULs behind it. */
  lemma RecordBytes(m: Message, i: nat)
    requires i < 256
    ensures var line := m.node + "\U{1F}" + (if m.options.None? then "(null)" else m.options.value) + "\U{1F}" + m.text;
      |Record(m)| == 256 && Record(m)[i] == if i < 254 && i < |line| then line[i] else '\0'
  {
  }
}
