/**
 * The bus page's small state machines: a route's arrival status reset, the
 * handler callbacks of the bus-table HTML parser over an abstract stream of
 * tag and text events, and the single-row bus announcement.
 */
module Bus {
  import opened Wrappers

  // ---------------------------------------------------------------------
  // Route

  /** The three arrival statuses: arrived, delayed, on time. */
  const Arrived: string := "a"
  const Delayed: string := "d"
  const OnTime: string := "o"

  predicate KnownStatus(status: string) {
    status == Arrived || status == Delayed || status == OnTime
  }

  /** A bus route such as TJ-24, with its parking space and arrival status. */
  class Route {
    var routeName: string
    var space: string
    var busNumber: string
    var status: string

    /** A new route: no space or bus number yet, and on time by default. */
    constructor(routeName: string)
      ensures this.routeName == routeName
      ensures space == "" && busNumber == "" && status == OnTime
    {
      this.routeName := routeName;
      space := "";
      busNumber := "";
      status := OnTime;
    }

    /** Back to on time with no space; the name and bus number stay. */
    method ResetStatus()
      modifies this
      ensures status == OnTime && KnownStatus(status)
      ensures space == ""
      ensures routeName == old(routeName) && busNumber == old(busNumber)
    {
      status := OnTime;
      space := "";
    }
  }

  // ---------------------------------------------------------------------
  // Whitespace splitting, as Python's str.split() with no argument does it

  /** The characters Python's str.isspace() accepts. */
  predicate IsSpace(c: char) {
    c == '\t' || c == '\n' || c == '\U{000B}' || c == '\U{000C}' || c == '\r' ||
    ('\U{001C}' <= c <= '\U{001F}') || c == ' ' || c == '\U{0085}' || c == '\U{00A0}' ||
    c == '\U{1680}' || ('\U{2000}' <= c <= '\U{200A}') || c == '\U{2028}' || c == '\U{2029}' ||
    c == '\U{202F}' || c == '\U{205F}' || c == '\U{3000}'
  }

  predicate NoSpace(s: string) {
    forall i :: 0 <= i < |s| ==> !IsSpace(s[i])
  }

  /** The longest prefix of `s` free of whitespace. */
  function Token(s: string): (r: string)
    ensures |r| <= |s| && r == s[..|r|]
    ensures NoSpace(r)
    ensures |r| == |s| || IsSpace(s[|r|])
  {
    if s == [] || IsSpace(s[0]) then [] else [s[0]] + Token(s[1..])
  }

  /** `s` without its leading whitespace. */
  function TrimStart(s: string): (r: string)
    ensures |r| <= |s| && r == s[|s| - |r|..]
    ensures r == [] || !IsSpace(r[0])
    ensures forall i :: 0 <= i < |s| - |r| ==> IsSpace(s[i])
  {
    if s != [] && IsSpace(s[0]) then TrimStart(s[1..]) else s
  }

  /** The whitespace-separated words of `s`, leading and trailing runs dropped. */
  function Words(s: string): seq<string>
    decreases |s|
  {
    var t := TrimStart(s);
    if t == [] then []
    else
      var w := Token(t);
      [w] + Words(t[|w|..])
  }

  /**
   * Text that does not open with whitespace has as its first word the
   * longest whitespace-free prefix.
   */
  lemma FirstWordIsToken(s: string)
    requires s != [] && !IsSpace(s[0])
    ensures Words(s) != [] && Words(s)[0] == Token(s)
  {
  }

  /** Every word is non-empty and free of whitespace. */
  lemma {:induction false} WordsHaveNoSpace(s: string)
    ensures forall k :: 0 <= k < |Words(s)| ==> Words(s)[k] != [] && NoSpace(Words(s)[k])
    decreases |s|
  {
    var t := TrimStart(s);
    if t != [] {
      var w := Token(t);
      var rest := Words(t[|w|..]);
      WordsHaveNoSpace(t[|w|..]);
      assert w != [] by {
        assert !IsSpace(t[0]);
      }
      assert Words(s) == [w] + rest;
      forall k | 0 <= k < |Words(s)| ensures Words(s)[k] != [] && NoSpace(Words(s)[k]) {
        if k > 0 {
          assert Words(s)[k] == rest[k - 1];
        }
      }
    } else {
      assert Words(s) == [];
    }
  }

  /** A whitespace-free opening of `s` is part of its token. */
  lemma {:induction false} TokenCoversNoSpacePrefix(s: string, n: nat)
    requires n <= |s| && NoSpace(s[..n])
    ensures |Token(s)| >= n
  {
    if n > 0 {
      assert s[0] == s[..n][0];
      assert s[1..][..n - 1] == s[1..n];
      assert forall i :: 0 <= i < n - 1 ==> s[1..n][i] == s[..n][i + 1];
      TokenCoversNoSpacePrefix(s[1..], n - 1);
    }
  }

  // ---------------------------------------------------------------------
  // BusTableParser

  /** The first three characters of a bus name. */
  const BusPrefix: string := "JT-"

  predicate StartsWithBusPrefix(s: string) {
    |s| >= |BusPrefix| && s[..|BusPrefix|] == BusPrefix
  }

  /** What the parser keeps for a table cell's text: its first word. */
  function BusName(text: string): (r: string)
    requires StartsWithBusPrefix(text)
    ensures r == Token(text)
    ensures StartsWithBusPrefix(r) && NoSpace(r)
  {
    FirstWordIsToken(text);
    TokenOfBusText(text);
    Words(text)[0]
  }

  /** Text starting with JT- keeps JT- at the head of its token. */
  lemma TokenOfBusText(text: string)
    requires StartsWithBusPrefix(text)
    ensures StartsWithBusPrefix(Token(text))
  {
    assert NoSpace(BusPrefix) by {
      assert BusPrefix == ['J', 'T', '-'];
    }
    TokenCoversNoSpacePrefix(text, |BusPrefix|);
    var w := Token(text);
    assert w[..|BusPrefix|] == text[..|BusPrefix|];
  }

  /** An attribute of a start tag; a bare attribute has no value. */
  datatype Attr = Attr(name: string, value: Option<string>)

  /** The callbacks the HTML tokenizer makes, in document order. */
  datatype Event = StartTag(tag: string, attrs: seq<Attr>) | EndTag(tag: string) | Data(text: string)

  /** The two fields the handlers change: whether inside a cell, and the names found. */
  datatype ParserState = ParserState(capture: bool, data: seq<string>)

  const Cell: string := "td"

  const Fresh: ParserState := ParserState(false, [])

  /** One handler call. */
  function Step(p: ParserState, e: Event): ParserState {
    match e
    case StartTag(tag, _) => if tag == Cell then p.(capture := true) else p
    case EndTag(tag) => if tag == Cell then p.(capture := false) else p
    case Data(text) =>
      if p.capture && StartsWithBusPrefix(text) then p.(data := p.data + [BusName(text)]) else p
  }

  /** A handler either leaves the names alone or adds one bus name. */
  lemma StepData(p: ParserState, e: Event)
    ensures Step(p, e).data == p.data ||
      (e.Data? && p.capture && StartsWithBusPrefix(e.text) && Step(p, e).data == p.data + [BusName(e.text)])
  {
  }

  /** The handler calls for a whole stream of events, in order. */
  function Run(p: ParserState, es: seq<Event>): ParserState
    decreases |es|
  {
    if es == [] then p else Step(Run(p, es[..|es| - 1]), es[|es| - 1])
  }

  lemma {:induction false} RunAppend(p: ParserState, es: seq<Event>, fs: seq<Event>)
    ensures Run(p, es + fs) == Run(Run(p, es), fs)
    decreases |fs|
  {
    if fs == [] {
      assert es + fs == es;
    } else {
      assert (es + fs)[..|es + fs| - 1] == es + fs[..|fs| - 1];
      RunAppend(p, es, fs[..|fs| - 1]);
    }
  }

  /** The names found so far are never removed or altered. */
  lemma {:induction false} RunAppendOnly(p: ParserState, es: seq<Event>)
    ensures |Run(p, es).data| >= |p.data|
    ensures Run(p, es).data[..|p.data|] == p.data
    decreases |es|
  {
    if es != [] {
      RunAppendOnly(p, es[..|es| - 1]);
      var q := Run(p, es[..|es| - 1]);
      StepData(q, es[|es| - 1]);
      var r := Run(p, es);
      assert r.data[..|q.data|] == q.data;
      assert r.data[..|p.data|] == r.data[..|q.data|][..|p.data|];
    }
  }

  predicate WellFormedEntry(name: string) {
    StartsWithBusPrefix(name) && NoSpace(name)
  }

  /** Every name the parser keeps starts with JT- and holds no whitespace. */
  lemma {:induction false} RunEntriesWellFormed(p: ParserState, es: seq<Event>)
    requires forall k :: 0 <= k < |p.data| ==> WellFormedEntry(p.data[k])
    ensures forall k :: 0 <= k < |Run(p, es).data| ==> WellFormedEntry(Run(p, es).data[k])
    decreases |es|
  {
    if es != [] {
      RunEntriesWellFormed(p, es[..|es| - 1]);
      var q := Run(p, es[..|es| - 1]);
      StepData(q, es[|es| - 1]);
      var r := Run(p, es);
      forall k | 0 <= k < |r.data| ensures WellFormedEntry(r.data[k]) {
        if k < |q.data| {
          assert r.data[k] == q.data[k];
        }
      }
    }
  }

  /** `name` is the bus name of one of the stream's text events. */
  predicate FromData(name: string, es: seq<Event>) {
    exists i :: 0 <= i < |es| && es[i].Data? && StartsWithBusPrefix(es[i].text) && name == BusName(es[i].text)
  }

  /** A name drawn from a stream is drawn from any longer stream. */
  lemma FromDataExtend(name: string, front: seq<Event>, e: Event)
    requires FromData(name, front)
    ensures FromData(name, front + [e])
  {
    var i :| 0 <= i < |front| && front[i].Data? && StartsWithBusPrefix(front[i].text) &&
             name == BusName(front[i].text);
    assert (front + [e])[i] == front[i];
  }

  /** Every name kept comes from a text event that starts with JT-. */
  lemma {:induction false} RunEntriesFromData(p: ParserState, es: seq<Event>)
    ensures forall k :: |p.data| <= k < |Run(p, es).data| ==> FromData(Run(p, es).data[k], es)
    decreases |es|
  {
    if es != [] {
      var front := es[..|es| - 1];
      var e := es[|es| - 1];
      assert es == front + [e];
      var q := Run(p, front);
      RunEntriesFromData(p, front);
      RunAppendOnly(p, front);
      StepData(q, e);
      var r := Run(p, es);
      assert r == Step(q, e);
      forall k | |p.data| <= k < |r.data|
        ensures FromData(r.data[k], es)
      {
        if k < |q.data| {
          assert r.data[k] == q.data[k];
          FromDataExtend(q.data[k], front, e);
        } else {
          assert es[|es| - 1] == e;
        }
      }
    }
  }

  predicate IsCellTag(e: Event) {
    (e.StartTag? && e.tag == Cell) || (e.EndTag? && e.tag == Cell)
  }

  /**
   * Independent of the handlers: the parser is inside a cell when the last
   * td tag of the stream opened one, or when the stream has no td tag and it
   * was inside one at the start.
   */
  predicate InsideCell(initial: bool, es: seq<Event>) {
    (exists i :: 0 <= i < |es| && es[i].StartTag? && es[i].tag == Cell &&
      forall j :: i < j < |es| ==> !IsCellTag(es[j])) ||
    (initial && forall j :: 0 <= j < |es| ==> !IsCellTag(es[j]))
  }

  lemma {:induction false} RunCapture(p: ParserState, es: seq<Event>)
    ensures Run(p, es).capture <==> InsideCell(p.capture, es)
    decreases |es|
  {
    if es != [] {
      var front := es[..|es| - 1];
      var e := es[|es| - 1];
      RunCapture(p, front);
      if IsCellTag(e) {
        if e.StartTag? {
          assert es[|es| - 1].StartTag? && es[|es| - 1].tag == Cell;
        } else {
          assert IsCellTag(es[|es| - 1]);
          assert !InsideCell(p.capture, es);
        }
      } else {
        if InsideCell(p.capture, front) {
          if i :| 0 <= i < |front| && front[i].StartTag? && front[i].tag == Cell &&
                  forall j :: i < j < |front| ==> !IsCellTag(front[j]) {
            assert es[i] == front[i];
            assert forall j :: i < j < |es| ==> !IsCellTag(es[j]) by {
              forall j | i < j < |es| ensures !IsCellTag(es[j]) {
                if j < |front| {
                  assert es[j] == front[j];
                }
              }
            }
          } else {
            assert forall j :: 0 <= j < |es| ==> !IsCellTag(es[j]) by {
              forall j | 0 <= j < |es| ensures !IsCellTag(es[j]) {
                if j < |front| {
                  assert es[j] == front[j];
                }
              }
            }
          }
        }
        if InsideCell(p.capture, es) {
          if i :| 0 <= i < |es| && es[i].StartTag? && es[i].tag == Cell &&
                  forall j :: i < j < |es| ==> !IsCellTag(es[j]) {
            assert i < |front|;
            assert front[i] == es[i];
          } else {
            assert forall j :: 0 <= j < |front| ==> !IsCellTag(front[j]) by {
              forall j | 0 <= j < |front| ensures !IsCellTag(front[j]) {
                assert front[j] == es[j];
              }
            }
          }
        }
      }
    }
  }

  /** A text event outside any cell, or not a bus name, keeps nothing. */
  lemma OnlyCapturedBusNames(p: ParserState, text: string)
    ensures |Step(p, Data(text)).data| == |p.data| + (if p.capture && StartsWithBusPrefix(text) then 1 else 0)
    ensures Step(p, Data(text)).capture == p.capture
  {
  }

  /** The parser as an object whose handlers change its two fields in place. */
  class BusTableParser {
    var data: seq<string>
    var capture: bool

    function State(): ParserState
      reads this
    {
      ParserState(capture, data)
    }

    constructor()
      ensures data == [] && !capture
      ensures State() == Fresh
    {
      data := [];
      capture := false;
    }

    /** Opening a td cell starts capturing; any other tag changes nothing. */
    method HandleStartTag(tag: string, attrs: seq<Attr>)
      modifies this
      ensures capture == (tag == Cell || old(capture))
      ensures data == old(data)
      ensures State() == Step(old(State()), StartTag(tag, attrs))
    {
      if tag == Cell {
        capture := true;
      }
    }

    /** Closing a td cell stops capturing; any other tag changes nothing. */
    method HandleEndTag(tag: string)
      modifies this
      ensures capture == (tag != Cell && old(capture))
      ensures data == old(data)
      ensures State() == Step(old(State()), EndTag(tag))
    {
      if tag == Cell {
        capture := false;
      }
    }

    /** Inside a cell, text starting with JT- adds its first word. */
    method HandleData(text: string)
      modifies this
      ensures capture == old(capture)
      ensures old(capture) && StartsWithBusPrefix(text) ==> data == old(data) + [BusName(text)]
      ensures !(old(capture) && StartsWithBusPrefix(text)) ==> data == old(data)
      ensures State() == Step(old(State()), Data(text))
    {
      if capture && StartsWithBusPrefix(text) {
        data := data + [BusName(text)];
      }
    }
  }

  // ---------------------------------------------------------------------
  // BusAnnouncement

  /** The one announcement's key. */
  const AnnouncementKey: int := 1

  /** The announcement table after saving `message`: always under key 1. */
  function SaveAnnouncement(rows: map<int, string>, message: string): (r: map<int, string>)
    ensures AnnouncementKey in r && r[AnnouncementKey] == message
    ensures r.Keys == rows.Keys + {AnnouncementKey}
    ensures forall k :: k in rows && k != AnnouncementKey ==> k in r && r[k] == rows[k]
  {
    rows[AnnouncementKey := message]
  }

  /** Saving a sequence of announcements in turn. */
  function SaveAll(rows: map<int, string>, messages: seq<string>): map<int, string>
    decreases |messages|
  {
    if messages == [] then rows
    else SaveAnnouncement(SaveAll(rows, messages[..|messages| - 1]), messages[|messages| - 1])
  }

  /**
   * However many announcements are saved, the table holds at most one row,
   * and after any save exactly one: the last message, under key 1.
   */
  lemma {:induction false} AtMostOneAnnouncement(rows: map<int, string>, messages: seq<string>)
    requires rows.Keys <= {AnnouncementKey}
    ensures SaveAll(rows, messages).Keys <= {AnnouncementKey}
    ensures messages != [] ==> SaveAll(rows, messages) == map[AnnouncementKey := messages[|messages| - 1]]
    decreases |messages|
  {
    if messages != [] {
      AtMostOneAnnouncement(rows, messages[..|messages| - 1]);
    }
  }

  /** An announcement; `id` is None until it is first saved. */
  class BusAnnouncement {
    var id: Option<int>
    var message: string

    constructor(message: string)
      ensures id == None && this.message == message
    {
      id := None;
      this.message := message;
    }
  }

  /** The announcement rows as the database holds them. */
  class AnnouncementTable {
    var rows: map<int, string>

    ghost predicate Valid()
      reads this
    {
      rows.Keys <= {AnnouncementKey}
    }

    constructor()
      ensures rows == map[] && Valid()
    {
      rows := map[];
    }

    /** Forces the key to 1 before writing, so it overwrites the one row. */
    method Save(a: BusAnnouncement)
      requires Valid()
      modifies this, a
      ensures Valid()
      ensures a.id == Some(AnnouncementKey) && a.message == old(a.message)
      ensures rows == SaveAnnouncement(old(rows), a.message)
      ensures rows == map[AnnouncementKey := a.message]
    {
      a.id := Some(AnnouncementKey);
      rows := rows[AnnouncementKey := a.message];
    }
  }
}
