/** The audit log's text format: lines, action names, event lines and their parser. */
module AuditFormat {
  import opened Bytes
  import opened Decimal
  import opened Strings

  type Action = v: int | 1 <= v <= 19 witness 1

  const NODE_HEARTBEAT: Action := 3
  const GENESIS := "GENESIS|"

  datatype Event = Event(
    sequence: u64, action: Action, actor: string, target: string, timestamp: i64,
    prevHash: string, paramsHash: string, json: string)

  function ActionName(a: Action): string {
    match a
    case 1 => "node_register"
    case 2 => "node_unregister"
    case 3 => "node_heartbeat"
    case 4 => "service_publish"
    case 5 => "service_subscribe"
    case 6 => "topology_update"
    case 7 => "cross_host_schedule"
    case 8 => "psk_handshake"
    case 9 => "pki_handshake"
    case 10 => "auth_success"
    case 11 => "auth_failure"
    case 12 => "credential_rotate"
    case 13 => "cmd_exec"
    case 14 => "file_transfer"
    case 15 => "config_change"
    case 16 => "audit_export"
    case 17 => "whitelist_update"
    case 18 => "rate_limit_triggered"
    case _ => "replay_detected"
  }

  /** The first action from v on with the given name; an unknown name is taken for a heartbeat. */
  function ActionOf(name: string, v: nat := 1): Action
    requires v >= 1
    decreases 20 - v
  {
    if v > 19 then NODE_HEARTBEAT
    else if name == ActionName(v) then v
    else ActionOf(name, v + 1)
  }

  /** The only action whose name can have this length and these characters in places 0, 1 and 5. */
  function ActionWith(length: int, c0: char, c1: char, c5: char): int {
    match length
    case 8 => 13
    case 12 => if c5 == 's' then 10 else if c5 == 'f' then 11 else 16
    case 13 => if c0 == 'n' then 1 else if c1 == 's' then 8 else if c1 == 'k' then 9 else if c1 == 'i' then 14 else 15
    case 14 => 3
    case 15 => if c0 == 'n' then 2 else if c0 == 't' then 6 else if c0 == 's' then 4 else 19
    case 16 => 17
    case 17 => if c0 == 's' then 5 else 12
    case 19 => 7
    case _ => 18
  }

  lemma NameTellsLowAction(a: Action)
    requires a <= 9
    ensures var n := ActionName(a); |n| > 5 && ActionWith(|n|, n[0], n[1], n[5]) == a
  {
  }

  lemma NameTellsHighAction(a: Action)
    requires a >= 10
    ensures var n := ActionName(a); |n| > 5 && ActionWith(|n|, n[0], n[1], n[5]) == a
  {
  }

  lemma NamesDiffer(u: Action, v: Action)
    requires u != v
    ensures ActionName(u) != ActionName(v)
  {
    hide ActionName, ActionWith;
    if u <= 9 {
      NameTellsLowAction(u);
    } else {
      NameTellsHighAction(u);
    }
    if v <= 9 {
      NameTellsLowAction(v);
    } else {
      NameTellsHighAction(v);
    }
  }

  lemma {:induction false} ActionOfNameFrom(a: Action, v: nat)
    requires 1 <= v <= a
    ensures ActionOf(ActionName(a), v) == a
    decreases a - v
  {
    if v < a {
      NamesDiffer(v, a);
      ActionOfNameFrom(a, v + 1);
    }
  }

  /** A name that no action has is taken for a heartbeat, action 3. */
  lemma {:induction false} UnknownName(name: string, v: nat)
    requires v >= 1 && forall a: Action :: ActionName(a) != name
    ensures ActionOf(name, v) == 3
    decreases 20 - v
  {
    hide ActionName;
    if v <= 19 {
      UnknownName(name, v + 1);
    }
  }

  // ---------- lines ----------

  /** The lines that repeated getline calls return: a final newline does not start another line. */
  function Lines(text: string): seq<string>
    decreases |text|
  {
    if text == [] then []
    else match FindChar(text, '\n')
      case None => [text]
      case Some(p) => [text[..p]] + Lines(text[p + 1..])
  }

  /** The lines of the rest of a text: nothing, all of it, or what precedes the next newline and the lines behind. */
  lemma LinesFrom(text: string, pos: nat)
    requires pos <= |text|
    ensures pos == |text| ==> Lines(text[pos..]) == []
    ensures pos < |text| ==>
              match FindChar(text[pos..], '\n')
              case None => Lines(text[pos..]) == [text[pos..]] + Lines(text[|text|..])
              case Some(p) => Lines(text[pos..]) == [text[pos..pos + p]] + Lines(text[pos + p + 1..])
  {
    var rest := text[pos..];
    match FindChar(rest, '\n')
    case None => assert [rest] + [] == [rest];
    case Some(p) => assert rest[..p] == text[pos..pos + p] && rest[p + 1..] == text[pos + p + 1..];
  }

  /** Text made of newline-terminated lines splits into them. */
  lemma LinesOfLine(line: string, text: string)
    requires '\n' !in line
    ensures Lines(line + "\n" + text) == [line] + Lines(text)
  {
    var all := line + "\n" + text;
    assert all[..|line|] == line && all[|line|] == '\n' && all[|line| + 1..] == text;
    assert forall k | 0 <= k < |line| :: all[k] == line[k] && line[k] in line;
    FindCharAt(all, '\n', 0, |line|);
  }

  /** A last line needs no newline behind it; an empty one is none. */
  lemma LinesOfLastLine(line: string)
    requires '\n' !in line
    ensures Lines(line) == if line == "" then [] else [line]
  {
  }

  // ---------- event lines ----------

  /** The positions of the first n bars at or behind i. */
  function Bars(line: string, i: nat, n: nat): (cuts: seq<nat>)
    requires i <= |line|
    ensures |cuts| <= n
    decreases |line| - i
  {
    if i == |line| || n == 0 then []
    else if line[i] == '|' then [i] + Bars(line, i + 1, n - 1)
    else Bars(line, i + 1, n)
  }

  /** Positions inside the line, from i on, in rising order. */
  predicate Rising(c: seq<nat>, i: nat, n: nat) {
    && (forall k | 0 <= k < |c| :: i <= c[k] < n)
    && (forall k | 1 <= k < |c| :: c[k - 1] < c[k])
  }

  lemma ConsRising(c: seq<nat>, i: nat, n: nat)
    requires Rising(c, i + 1, n) && i < n
    ensures Rising([i] + c, i, n)
  {
  }

  lemma {:induction false} BarsAreRising(line: string, i: nat, n: nat)
    requires i <= |line|
    ensures Rising(Bars(line, i, n), i, |line|)
    decreases |line| - i
  {
    if i < |line| && n > 0 {
      if line[i] == '|' {
        BarsAreRising(line, i + 1, n - 1);
        ConsRising(Bars(line, i + 1, n - 1), i, |line|);
      } else {
        BarsAreRising(line, i + 1, n);
      }
    }
  }

  /** Fields, each followed by a bar, and the rest. */
  function Join(fields: seq<string>, rest: string): string {
    if fields == [] then rest else fields[0] + "|" + Join(fields[1..], rest)
  }

  function Fields(e: Event): seq<string> {
    [Dec(e.sequence), ActionName(e.action), e.actor, e.target, DecInt(e.timestamp), e.prevHash, e.paramsHash]
  }

  function EventLine(e: Event): string {
    Join(Fields(e), e.json)
  }

  /** The text between cut k - 1, or the start of the line, and cut k, or the end of the line. */
  function Field(line: string, c: seq<nat>, k: nat): string
    requires k <= |c| && Rising(c, 0, |line|)
  {
    var start := if k == 0 then 0 else c[k - 1] + 1;
    if k == |c| then line[start..] else line[start..c[k]]
  }

  /** The event whose fields lie between seven cuts; the rest of the line, bars included, is the parameters' text. */
  function Assemble(line: string, c: seq<nat>): Option<Event>
    requires |c| == 7 && Rising(c, 0, |line|)
  {
    match (ParseUnsigned(Field(line, c, 0)), ParseSigned(Field(line, c, 4)))
    case (Some(sequence), Some(timestamp)) =>
      Some(Event(sequence, ActionOf(Field(line, c, 1)), Field(line, c, 2), Field(line, c, 3), timestamp,
                 Field(line, c, 5), Field(line, c, 6), Field(line, c, 7)))
    case _ => None
  }

  /** A line with fewer than seven bars, or with a number that does not convert, is no event. */
  function ParseLine(line: string): Option<Event> {
    var c := Bars(line, 0, 7);
    BarsAreRising(line, 0, 7);
    if |c| != 7 then None else Assemble(line, c)
  }

  /** What the format asks of an event's texts: no bar before the parameters, and no newline anywhere. */
  predicate Clean(e: Event) {
    && NoBar(e.actor) && NoBar(e.target) && NoBar(e.prevHash) && NoBar(e.paramsHash)
    && NoNewline(e.actor) && NoNewline(e.target) && NoNewline(e.prevHash) && NoNewline(e.paramsHash)
    && NoNewline(e.json)
  }

  /** Characters that are no bars are stepped over up to the next bar. */
  lemma {:induction false} BarsSkip(line: string, i: nat, p: nat, n: nat)
    requires i <= p < |line| && line[p] == '|' && n > 0 && forall k | i <= k < p :: line[k] != '|'
    ensures Bars(line, i, n) == [p] + Bars(line, p + 1, n - 1)
    decreases p - i
  {
    if i < p {
      BarsSkip(line, i + 1, p, n);
    }
  }

  /** A bar-free field at the front of the rest of a line is cut off at the bar behind it. */
  lemma FieldCut(line: string, i: nat, field: string, rest: string, n: nat)
    requires i <= |line| && line[i..] == field + "|" + rest && NoBar(field) && n > 0
    ensures i + |field| < |line| && line[i..i + |field|] == field && line[i + |field| + 1..] == rest
    ensures Bars(line, i, n) == [i + |field|] + Bars(line, i + |field| + 1, n - 1)
  {
    var p, tail := i + |field|, line[i..];
    assert |line| == i + |tail|;
    assert forall k | 0 <= k < |tail| :: tail[k] == line[i + k];
    assert tail[|field|] == '|';
    assert forall k | i <= k < p :: line[k] == tail[k - i] == field[k - i] && field[k - i] in field;
    BarsSkip(line, i, p, n);
    assert tail[|field| + 1..] == rest;
  }

  lemma DigitsHaveNoBar(n: int)
    ensures n >= 0 ==> NoBar(Dec(n)) && NoNewline(Dec(n))
    ensures NoBar(DecInt(n)) && NoNewline(DecInt(n))
  {
  }

  lemma ActionNamesAreClean(a: Action)
    ensures NoBar(ActionName(a)) && NoNewline(ActionName(a))
  {
    if a <= 6 {
      LowNamesAreClean(a);
    } else if a <= 12 {
      MiddleNamesAreClean(a);
    } else {
      HighNamesAreClean(a);
    }
  }

  lemma LowNamesAreClean(a: Action)
    requires a <= 6
    ensures NoBar(ActionName(a)) && NoNewline(ActionName(a))
  {
    match a
    case 1 => LettersAreClean("node_register");
    case 2 => LettersAreClean("node_unregister");
    case 3 => LettersAreClean("node_heartbeat");
    case 4 => LettersAreClean("service_publish");
    case 5 => LettersAreClean("service_subscribe");
    case _ => LettersAreClean("topology_update");
  }

  lemma MiddleNamesAreClean(a: Action)
    requires 7 <= a <= 12
    ensures NoBar(ActionName(a)) && NoNewline(ActionName(a))
  {
    match a
    case 7 => LettersAreClean("cross_host_schedule");
    case 8 => LettersAreClean("psk_handshake");
    case 9 => LettersAreClean("pki_handshake");
    case 10 => LettersAreClean("auth_success");
    case 11 => LettersAreClean("auth_failure");
    case _ => LettersAreClean("credential_rotate");
  }

  lemma HighNamesAreClean(a: Action)
    requires 13 <= a
    ensures NoBar(ActionName(a)) && NoNewline(ActionName(a))
  {
    match a
    case 13 => LettersAreClean("cmd_exec");
    case 14 => LettersAreClean("file_transfer");
    case 15 => LettersAreClean("config_change");
    case 16 => LettersAreClean("audit_export");
    case 17 => LettersAreClean("whitelist_update");
    case 18 => LettersAreClean("rate_limit_triggered");
    case _ => LettersAreClean("replay_detected");
  }

  lemma LettersAreClean(s: string)
    requires forall i | 0 <= i < |s| :: s[i] == '_' || 'a' <= s[i] <= 'z'
    ensures NoBar(s) && NoNewline(s)
  {
  }

  /** Where field k starts, given the cuts. */
  function Start(cuts: seq<nat>, i: nat, k: nat): nat
    requires k <= |cuts|
  {
    if k == 0 then i else cuts[k - 1] + 1
  }

  /** The cuts separate the line, from i on, into the fields and the rest. */
  ghost predicate CutInto(line: string, i: nat, c: seq<nat>, fields: seq<string>, rest: string) {
    && |c| == |fields|
    && (forall k {:trigger fields[k]} | 0 <= k < |c| :: CutsField(line, Start(c, i, k), c[k], fields[k]))
    && Start(c, i, |c|) <= |line| && line[Start(c, i, |c|)..] == rest
  }

  predicate CutsField(line: string, start: nat, end: nat, field: string) {
    start <= end <= |line| && line[start..end] == field
  }

  lemma CutsSlice(line: string, start: nat, end: nat)
    requires start <= end <= |line|
    ensures CutsField(line, start, end, line[start..end])
  {
  }

  lemma ConsCut(line: string, i: nat, p: nat, f: string, d: seq<nat>, fields: seq<string>, rest: string)
    requires CutsField(line, i, p, f) && CutInto(line, p + 1, d, fields, rest)
    ensures CutInto(line, i, [p] + d, [f] + fields, rest)
  {
    var c, all := [p] + d, [f] + fields;
    hide CutsField;
    forall k | 0 <= k < |c|
      ensures CutsField(line, Start(c, i, k), c[k], all[k])
    {
      if k > 0 {
        assert Start(c, i, k) == Start(d, p + 1, k - 1) && all[k] == fields[k - 1];
      }
    }
    assert Start(c, i, |c|) == Start(d, p + 1, |d|);
  }

  /** The bars of a joined line cut out its fields and its rest. */
  lemma {:induction false} CutAll(line: string, i: nat, fields: seq<string>, rest: string)
    requires i <= |line| && line[i..] == Join(fields, rest) && forall f | f in fields :: NoBar(f)
    ensures CutInto(line, i, Bars(line, i, |fields|), fields, rest)
    decreases |fields|
  {
    hide CutInto, CutsField;
    if fields == [] {
      NothingToCut(line, i, rest);
    } else {
      var f, n := fields[0], |fields|;
      FirstField(fields, rest);
      hide Join, NoBar;
      FieldCut(line, i, f, Join(fields[1..], rest), n);
      CutAll(line, i + |f| + 1, fields[1..], rest);
      hide Bars;
      CutsSlice(line, i, i + |f|);
      ConsCut(line, i, i + |f|, f, Bars(line, i + |f| + 1, n - 1), fields[1..], rest);
      assert [f] + fields[1..] == fields;
    }
  }

  lemma FirstField(fields: seq<string>, rest: string)
    requires fields != [] && forall f | f in fields :: NoBar(f)
    ensures Join(fields, rest) == fields[0] + "|" + Join(fields[1..], rest) && NoBar(fields[0])
    ensures forall f | f in fields[1..] :: NoBar(f)
  {
    assert fields[0] in fields;
  }

  lemma NothingToCut(line: string, i: nat, rest: string)
    requires i <= |line| && line[i..] == Join([], rest)
    ensures CutInto(line, i, Bars(line, i, 0), [], rest)
  {
  }

  lemma FieldOfCut(line: string, c: seq<nat>, k: nat, fields: seq<string>, rest: string)
    requires CutInto(line, 0, c, fields, rest) && Rising(c, 0, |line|) && k < |c|
    ensures Field(line, c, k) == fields[k]
  {
    assert CutsField(line, Start(c, 0, k), c[k], fields[k]);
  }

  lemma {:induction false} JoinHasNoNewline(fields: seq<string>, rest: string)
    requires NoNewline(rest) && forall f | f in fields :: NoNewline(f)
    ensures NoNewline(Join(fields, rest)) && (fields != [] ==> Join(fields, rest) != [])
  {
    if fields != [] {
      assert NoNewline(fields[0]) by {
        assert fields[0] in fields;
      }
      JoinHasNoNewline(fields[1..], rest);
    }
  }

  lemma EventLineHasNoNewline(e: Event)
    requires Clean(e)
    ensures NoNewline(EventLine(e)) && EventLine(e) != []
  {
    DigitsHaveNoBar(e.sequence);
    DigitsHaveNoBar(e.timestamp);
    ActionNamesAreClean(e.action);
    hide Dec, DecInt, ActionName;
    JoinHasNoNewline(Fields(e), e.json);
  }

  /** The text of an event line: eight fields, in this order, with a bar between any two. */
  lemma EventLineText(e: Event)
    ensures EventLine(e) == Dec(e.sequence) + "|" + (ActionName(e.action) + "|" + (e.actor + "|" + (e.target + "|"
                            + (DecInt(e.timestamp) + "|" + (e.prevHash + "|" + (e.paramsHash + "|" + e.json))))))
  {
    hide Dec, DecInt, ActionName;
    var f := Fields(e);
    assert Join([], e.json) == e.json;
    assert f[1..][1..][1..][1..][1..][1..][1..] == [];
    assert Join(f[1..][1..][1..][1..][1..][1..], e.json) == e.paramsHash + "|" + e.json;
    assert Join(f[1..][1..][1..][1..][1..], e.json) == e.prevHash + "|" + (e.paramsHash + "|" + e.json);
    assert Join(f[1..][1..][1..], e.json) == e.target + "|" + Join(f[1..][1..][1..][1..], e.json);
    assert Join(f[1..], e.json) == ActionName(e.action) + "|" + Join(f[1..][1..], e.json);
  }

  // ---------- the parser on any line ----------

  /** The line is bar-free fields, each followed by a bar, and a rest. */
  predicate Separated(line: string, fields: seq<string>, rest: string) {
    line == Join(fields, rest) && forall f | f in fields :: NoBar(f)
  }

  /** What the seven fields and the rest say, unless a number does not convert. */
  function EventWith(f: seq<string>, rest: string): Option<Event>
    requires |f| == 7
  {
    match (ParseUnsigned(f[0]), ParseSigned(f[4]))
    case (Some(sequence), Some(timestamp)) =>
      Some(Event(sequence, ActionOf(f[1]), f[2], f[3], timestamp, f[5], f[6], rest))
    case _ => None
  }

  /** Any line with seven bars parses to what its first seven fields and the rest behind them say. */
  lemma ParseOfSeparated(line: string, f: seq<string>, rest: string)
    requires |f| == 7 && Separated(line, f, rest)
    ensures ParseLine(line) == EventWith(f, rest)
  {
    var c := Bars(line, 0, 7);
    assert line[0..] == line;
    CutAll(line, 0, f, rest);
    BarsAreRising(line, 0, 7);
    forall k | 0 <= k < 7
      ensures Field(line, c, k) == f[k]
    {
      FieldOfCut(line, c, k, f, rest);
    }
    assert Field(line, c, 7) == rest;
    hide ParseUnsigned, ParseSigned, ActionOf, Rising, Field, CutInto, Bars, Join;
    assert Field(line, c, 0) == f[0] && Field(line, c, 1) == f[1] && Field(line, c, 2) == f[2];
    assert Field(line, c, 3) == f[3] && Field(line, c, 4) == f[4] && Field(line, c, 5) == f[5];
    assert Field(line, c, 6) == f[6];
  }

  /** The parser recovers every clean event from its line. */
  lemma ParseOfEventLine(e: Event)
    requires Clean(e)
    ensures ParseLine(EventLine(e)) == Some(e)
  {
    DigitsHaveNoBar(e.sequence);
    DigitsHaveNoBar(e.timestamp);
    ActionNamesAreClean(e.action);
    ParseUnsignedOfDec(e.sequence);
    ParseSignedOfDecInt(e.timestamp);
    ActionOfNameFrom(e.action, 1);
    hide Dec, DecInt, ActionName, ActionOf, ParseUnsigned, ParseSigned, ParseLine, Join;
    ParseOfSeparated(EventLine(e), Fields(e), e.json);
  }

  /** How many bars a text has. */
  function BarCount(s: string): nat {
    if s == [] then 0 else (if s[0] == '|' then 1 else 0) + BarCount(s[1..])
  }

  lemma {:induction false} BarsFound(line: string, i: nat, n: nat)
    requires i <= |line|
    ensures |Bars(line, i, n)| == if BarCount(line[i..]) < n then BarCount(line[i..]) else n
    decreases |line| - i
  {
    if i < |line| && n > 0 {
      assert line[i..][1..] == line[i + 1..];
      if line[i] == '|' {
        BarsFound(line, i + 1, n - 1);
      } else {
        BarsFound(line, i + 1, n);
      }
    }
  }

  /** Any line with fewer than seven bars is no event. */
  lemma TooFewBars(line: string)
    requires BarCount(line) < 7
    ensures ParseLine(line) == None
  {
    assert line[0..] == line;
    BarsFound(line, 0, 7);
  }

  /** A line with at least n bars is separated by the first n of them. */
  lemma {:induction false} EnoughBars(line: string, n: nat) returns (fields: seq<string>, rest: string)
    requires BarCount(line) >= n
    ensures |fields| == n && Separated(line, fields, rest)
    decreases n
  {
    if n == 0 {
      return [], line;
    }
    var p := FirstBar(line);
    fields, rest := EnoughBars(line[p + 1..], n - 1);
    fields := [line[..p]] + fields;
    assert line == line[..p] + "|" + line[p + 1..];
  }

  lemma {:induction false} FirstBar(line: string) returns (p: nat)
    requires BarCount(line) > 0
    ensures p < |line| && line[p] == '|' && NoBar(line[..p]) && BarCount(line[p + 1..]) == BarCount(line) - 1
  {
    if line[0] == '|' {
      p := 0;
    } else {
      p := FirstBar(line[1..]);
      assert line[1..][p + 1..] == line[p + 2..] && line[..p + 1] == [line[0]] + line[1..][..p];
      p := p + 1;
    }
  }

  /** Any line at all: no event with fewer than seven bars, and else what its first seven fields and the rest say. */
  lemma ParseOfAnyLine(line: string) returns (fields: seq<string>, rest: string)
    ensures if BarCount(line) < 7 then ParseLine(line) == None
            else |fields| == 7 && Separated(line, fields, rest) && ParseLine(line) == EventWith(fields, rest)
  {
    fields, rest := [], "";
    if BarCount(line) < 7 {
      TooFewBars(line);
    } else {
      fields, rest := EnoughBars(line, 7);
      hide ParseLine, Separated, EventWith;
      ParseOfSeparated(line, fields, rest);
    }
  }

  // ---------- the parser's loops ----------

  /** The positions of the first seven bars, or of all if there are fewer. */
  method FindCuts(line: string) returns (cuts: seq<nat>)
    ensures cuts == Bars(line, 0, 7)
  {
    cuts := [];
    var i := 0;
    while i < |line| && |cuts| < 7
      invariant i <= |line| && |cuts| <= 7
      invariant Bars(line, 0, 7) == cuts + Bars(line, i, 7 - |cuts|)
    {
      if line[i] == '|' {
        cuts := cuts + [i];
      }
      i := i + 1;
    }
  }

  /** Compares a name with every action's name; an unknown name keeps the default. */
  method LookUpAction(name: string) returns (action: Action)
    ensures action == ActionOf(name)
  {
    hide ActionName;
    action := NODE_HEARTBEAT;
    var v := 1;
    while v <= 19
      invariant 1 <= v <= 20 && action == NODE_HEARTBEAT
      invariant ActionOf(name) == ActionOf(name, v)
      decreases 20 - v
    {
      if name == ActionName(v) {
        return v;
      }
      v := v + 1;
    }
  }

  /** Cuts a line at its first seven bars and converts the fields. */
  method ParseEventLine(line: string) returns (r: Option<Event>)
    ensures r == ParseLine(line)
  {
    var cuts := FindCuts(line);
    BarsAreRising(line, 0, 7);
    hide Bars, ActionOf, ParseUnsigned, ParseSigned;
    if |cuts| != 7 {
      return None;
    }
    hide Rising, Field;
    var sequence := ParseUnsigned(Field(line, cuts, 0));
    var timestamp := ParseSigned(Field(line, cuts, 4));
    if sequence.None? || timestamp.None? {
      return None;
    }
    var action := LookUpAction(Field(line, cuts, 1));
    return Some(Event(sequence.value, action, Field(line, cuts, 2), Field(line, cuts, 3), timestamp.value,
                      Field(line, cuts, 5), Field(line, cuts, 6), Field(line, cuts, 7)));
  }
}
