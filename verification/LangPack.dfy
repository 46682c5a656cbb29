/** The language pack of langpack.cpp: sections collected line by line, sorted by hash, looked up by hash alone. */
module LangPack {
  import opened Unicode
  import opened Backslashes
  import opened CString

  const NEWLINE: Byte := 0x0A
  const RETURN: Byte := 0x0D

  // ---------------------------------------------------------------- one line

  datatype Line = Ignored | Header(key: Text) | Content(text: Text)

  predicate IsEmpty(s: Text) { forall i :: 0 <= i < |s| ==> s[i] == 0x20 || s[i] == RETURN || s[i] == NEWLINE }

  /** `TrimStringSimple` */
  function TrimEnd(s: Text): (r: Text) {
    var t := if s != [] && s[|s| - 1] == NEWLINE then s[..|s| - 1] else s;
    if t != [] && t[|t| - 1] == RETURN then t[..|t| - 1] else t
  }

  /** What the body loop takes a line for. */
  function Classify(raw: Text): (l: Line) {
    if IsEmpty(raw) || raw[0] == 0x3B then Ignored else
    var u := Unescape(TrimEnd(raw));
    if |u| >= 2 && u[0] == 0x5B && u[|u| - 1] == 0x5D then
      Header(TrimEnd(u[..|u| - 1])[1..])
    else Content(u)
  }

  // ---------------------------------------------------------------- the sections of a pack

  datatype Section = Section(key: Text, texts: seq<Text>, pos: nat)

  /** The text lines up to the next header. */
  function TextsOf(ls: seq<Line>): (ts: seq<Text>) {
    if ls == [] || ls[0].Header? then []
    else if ls[0].Content? then [ls[0].text] + TextsOf(ls[1..])
    else TextsOf(ls[1..])
  }

  /** Every header with the text under it, numbered in the order written. */
  function Sections(ls: seq<Line>, pos: nat): (ss: seq<Section>) {
    if ls == [] then []
    else if ls[0].Header? then [Section(ls[0].key, TextsOf(ls[1..]), pos)] + Sections(ls[1..], pos + 1)
    else Sections(ls[1..], pos)
  }

  function WithText(ss: seq<Section>): (r: seq<Section>) {
    if ss == [] then [] else
    var last := ss[|ss| - 1];
    WithText(ss[..|ss| - 1]) + if last.texts == [] then [] else [last]
  }

  /** A section without text is dropped as soon as another one follows it. */
  function Survivors(ss: seq<Section>): (r: seq<Section>) {
    if ss == [] then [] else WithText(ss[..|ss| - 1]) + [ss[|ss| - 1]]
  }

  // ---------------------------------------------------------------- the table

  type Hash = Text -> nat

  /** `local` is `None` while it is NULL. */
  datatype Entry = Entry(hash: nat, local: Option<Text>, linePos: nat)

  function Joined(ts: seq<Text>): (t: Text)
    requires ts != []
  {
    if |ts| == 1 then ts[0] else Joined(ts[..|ts| - 1]) + [NEWLINE] + ts[|ts| - 1]
  }

  function ToEntry(s: Section, hash: Hash): (e: Entry) {
    Entry(hash(s.key), if s.texts == [] then None else Some(Joined(s.texts)), s.pos)
  }

  function ToEntries(ss: seq<Section>, hash: Hash): (es: seq<Entry>) {
    seq(|ss|, i requires 0 <= i < |ss| => ToEntry(ss[i], hash))
  }

  /** The loop that fills the table: drop a textless last entry at a header, extend the last entry at a text line. */
  method LoadBody(lines: seq<Text>, hash: Hash) returns (entry: seq<Entry>)
    ensures entry == ToEntries(Survivors(Sections(Classified(lines), 1)), hash)
  {
    hide Classify, Joined, Survivors, Sections;
    entry := [];
    var linePos := 1;
    ghost var ls := Classified(lines);
    SectionsNone();
    for i := 0 to |lines|
      invariant entry == ToEntries(Survivors(Sections(ls[..i], 1)), hash)
      invariant linePos == 1 + |Sections(ls[..i], 1)|
    {
      ghost var ss := Sections(ls[..i], 1);
      assert ls[..i + 1] == ls[..i] + [ls[i]];
      SectionsSnoc(ls[..i], ls[i], 1);
      SurvivorsLast(ss);
      match Classify(lines[i])
      case Ignored =>
      case Header(key) =>
        SurvivorsSnoc(ss, Section(key, [], linePos));
        if entry != [] && entry[|entry| - 1].local.None? { entry := entry[..|entry| - 1]; }
        entry := entry + [Entry(hash(key), None, linePos)];
        linePos := linePos + 1;
      case Content(text) =>
        if entry != [] {
          JoinedSnoc(ss[|ss| - 1].texts, text);
          SurvivorsExtend(ss, text);
          var last := entry[|entry| - 1];
          var local := if last.local.None? then text else last.local.value + [NEWLINE] + text;
          entry := entry[|entry| - 1 := last.(local := Some(local))];
        }
    }
    assert ls[..|lines|] == ls;
  }

  function Classified(lines: seq<Text>): (ls: seq<Line>) {
    seq(|lines|, i requires 0 <= i < |lines| => Classify(lines[i]))
  }

  /** The last section with one more line of text. */
  function Extended(ss: seq<Section>, text: Text): (r: seq<Section>) {
    if ss == [] then [] else
    var last := ss[|ss| - 1];
    ss[..|ss| - 1] + [last.(texts := last.texts + [text])]
  }

  lemma SectionsNone()
    ensures Sections([], 1) == [] && Survivors([]) == []
  {
  }

  lemma {:induction false} TextsSnoc(ls: seq<Line>, l: Line)
    ensures TextsOf(ls + [l]) ==
      if l.Content? && forall i :: 0 <= i < |ls| ==> !ls[i].Header? then TextsOf(ls) + [l.text] else TextsOf(ls)
  {
    if ls == [] {
      assert (ls + [l])[1..] == [];
    } else {
      assert (ls + [l])[1..] == ls[1..] + [l];
      TextsSnoc(ls[1..], l);
      assert (forall i :: 0 <= i < |ls| ==> !ls[i].Header?) <==>
        (!ls[0].Header? && forall i :: 0 <= i < |ls[1..]| ==> !ls[1..][i].Header?) by {
        assert ls == [ls[0]] + ls[1..];
      }
    }
  }

  lemma {:induction false} SectionsEmpty(ls: seq<Line>, pos: nat)
    ensures Sections(ls, pos) == [] <==> forall i :: 0 <= i < |ls| ==> !ls[i].Header?
  {
    if ls != [] {
      SectionsEmpty(ls[1..], pos);
      assert ls == [ls[0]] + ls[1..];
    }
  }

  /** What one more line makes of the sections so far. */
  function More(ss: seq<Section>, l: Line, pos: nat): (r: seq<Section>) {
    match l
    case Ignored => ss
    case Header(key) => ss + [Section(key, [], pos + |ss|)]
    case Content(text) => Extended(ss, text)
  }

  lemma MoreBehind(first: Section, rest: seq<Section>, l: Line, pos: nat)
    ensures More([first] + rest, l, pos) ==
      if rest == [] && l.Content? then [first.(texts := first.texts + [l.text])] else [first] + More(rest, l, pos + 1)
  {
    hide Extended;
    if l.Content? { ExtendedCons(first, rest, l.text); }
  }

  /** One more line: a new section, or more text for the last one. */
  lemma {:induction false} SectionsSnoc(ls: seq<Line>, l: Line, pos: nat)
    ensures var ss := Sections(ls, pos);
      Sections(ls + [l], pos) == match l
        case Ignored => ss
        case Header(key) => ss + [Section(key, [], pos + |ss|)]
        case Content(text) => Extended(ss, text)
  {
    SectionsMore(ls, l, pos);
  }

  lemma {:induction false} SectionsMore(ls: seq<Line>, l: Line, pos: nat)
    ensures Sections(ls + [l], pos) == More(Sections(ls, pos), l, pos)
  {
    if ls == [] {
      assert ls + [l] == [l] && [l][1..] == [];
    } else {
      hide TextsOf, More;
      var tail := ls[1..];
      assert (ls + [l])[1..] == tail + [l];
      if ls[0].Header? {
        SectionsMore(tail, l, pos + 1);
        TextsSnoc(tail, l);
        SectionsEmpty(tail, pos + 1);
        MoreBehind(Section(ls[0].key, TextsOf(tail), pos), Sections(tail, pos + 1), l, pos);
        if Sections(tail, pos + 1) == [] && l.Content? { MoreOfNothing(l, pos + 1); }
      } else {
        SectionsMore(tail, l, pos);
      }
    }
  }

  lemma MoreOfNothing(l: Line, pos: nat)
    requires l.Content?
    ensures More([], l, pos) == []
  {
  }

  lemma ExtendedCons(first: Section, rest: seq<Section>, text: Text)
    ensures Extended([first] + rest, text) ==
      if rest == [] then [first.(texts := first.texts + [text])] else [first] + Extended(rest, text)
  {
  }

  lemma SurvivorsLast(ss: seq<Section>)
    ensures ss == [] <==> Survivors(ss) == []
    ensures ss != [] ==> Survivors(ss)[|Survivors(ss)| - 1] == ss[|ss| - 1]
  {
  }

  lemma SurvivorsSnoc(ss: seq<Section>, s: Section)
    ensures var kept := Survivors(ss);
      Survivors(ss + [s]) == (if kept != [] && kept[|kept| - 1].texts == [] then kept[..|kept| - 1] else kept) + [s]
  {
  }

  lemma SurvivorsExtend(ss: seq<Section>, text: Text)
    requires ss != []
    ensures var kept, last := Survivors(ss), ss[|ss| - 1];
      Survivors(Extended(ss, text)) == kept[..|kept| - 1] + [last.(texts := last.texts + [text])]
  {
  }

  lemma JoinedSnoc(ts: seq<Text>, t: Text)
    ensures Joined(ts + [t]) == if ts == [] then t else Joined(ts) + [NEWLINE] + t
  {
  }

  // ---------------------------------------------------------------- sorting and looking up

  /** `SortLangPackHashesProc` */
  function Compare(a: Entry, b: Entry): (r: int) {
    if a.hash < b.hash then -1 else if a.hash > b.hash then 1
    else if a.linePos < b.linePos then -1 else if a.linePos > b.linePos then 1 else 0
  }

  /** What `qsort` leaves. */
  ghost predicate IsSortOf(table: seq<Entry>, entries: seq<Entry>) {
    && multiset(table) == multiset(entries)
    && forall i, j :: 0 <= i < j < |table| ==> Compare(table[i], table[j]) <= 0
  }

  /** What `bsearch` with `SortLangPackHashesProc2` may answer: any entry with this hash, or none (-1). */
  predicate IsHit(table: seq<Entry>, hash: nat, hit: int) {
    if hit < 0 then forall i :: 0 <= i < |table| ==> table[i].hash != hash
    else hit < |table| && table[hit].hash == hash
  }

  /** The first entry with this hash in the order written. */
  function FirstWritten(entries: seq<Entry>, hash: nat): (r: Option<Entry>) {
    if entries == [] then None
    else if entries[0].hash == hash then Some(entries[0])
    else FirstWritten(entries[1..], hash)
  }

  predicate Numbered(entries: seq<Entry>) {
    forall i, j :: 0 <= i < j < |entries| ==> entries[i].linePos < entries[j].linePos
  }

  lemma {:induction false} FirstWrittenFacts(entries: seq<Entry>, hash: nat)
    ensures match FirstWritten(entries, hash)
      case None => forall i :: 0 <= i < |entries| ==> entries[i].hash != hash
      case Some(e) => exists i :: 0 <= i < |entries| && entries[i] == e && e.hash == hash
                                && forall j :: 0 <= j < i ==> entries[j].hash != hash
  {
    if entries != [] && entries[0].hash != hash {
      FirstWrittenFacts(entries[1..], hash);
      match FirstWritten(entries[1..], hash)
      case None =>
        assert entries == [entries[0]] + entries[1..];
      case Some(e) =>
        var i :| 0 <= i < |entries[1..]| && entries[1..][i] == e && e.hash == hash
              && forall j :: 0 <= j < i ==> entries[1..][j].hash != hash;
        assert entries[i + 1] == e;
        forall j | 0 <= j < i + 1 ensures entries[j].hash != hash {
          if j > 0 { assert entries[1..][j - 1].hash != hash; }
        }
    }
  }

  lemma InBoth(table: seq<Entry>, entries: seq<Entry>, e: Entry)
    requires multiset(table) == multiset(entries)
    ensures e in table <==> e in entries
  {
    assert e in table <==> e in multiset(table);
    assert e in entries <==> e in multiset(entries);
  }

  /** The lowest table entry of a hash group is the entry of that hash written first. */
  lemma {:induction false} GroupStartIsFirstWritten(table: seq<Entry>, entries: seq<Entry>, hash: nat, i: nat)
    requires IsSortOf(table, entries) && Numbered(entries)
    requires i < |table| && table[i].hash == hash && (i == 0 || table[i - 1].hash != hash)
    ensures FirstWritten(entries, hash) == Some(table[i])
  {
    FirstWrittenFacts(entries, hash);
    InBoth(table, entries, table[i]);
    var a :| 0 <= a < |entries| && entries[a] == table[i];
    assert FirstWritten(entries, hash).Some?;
    var e := FirstWritten(entries, hash).value;
    var b :| 0 <= b < |entries| && entries[b] == e && e.hash == hash
          && forall j :: 0 <= j < b ==> entries[j].hash != hash;
    assert b <= a;
    InBoth(table, entries, e);
    var j :| 0 <= j < |table| && table[j] == e;
    if j < i { GroupIsContiguous(table, entries, j, i); }
    if j > i { assert Compare(table[i], table[j]) <= 0; }
  }

  lemma GroupIsContiguous(table: seq<Entry>, entries: seq<Entry>, j: nat, i: nat)
    requires IsSortOf(table, entries) && j < i < |table| && table[j].hash == table[i].hash
    ensures table[i - 1].hash == table[i].hash
  {
  }

  /** Where the backward walk from a hit stops. */
  function GroupStart(table: seq<Entry>, hit: nat): (i: nat)
    requires hit < |table|
    ensures i <= hit && table[i].hash == table[hit].hash && (i == 0 || table[i - 1].hash != table[hit].hash)
  {
    if hit == 0 || table[hit - 1].hash != table[hit].hash then hit else GroupStart(table, hit - 1)
  }

  /** The entry a hit leads to; `None` stands for answering the key itself. */
  function Found(table: seq<Entry>, hit: int): (r: Option<Entry>) {
    if 0 <= hit < |table| then Some(table[GroupStart(table, hit)]) else None
  }

  /** Whichever entry of the hash the search lands on, the walk ends at the one written first. */
  lemma {:induction false} FoundIsFirstWritten(table: seq<Entry>, entries: seq<Entry>, hash: nat, hit: int)
    requires IsSortOf(table, entries) && Numbered(entries) && IsHit(table, hash, hit)
    ensures Found(table, hit) == FirstWritten(entries, hash)
  {
    if hit >= 0 {
      GroupStartIsFirstWritten(table, entries, hash, GroupStart(table, hit));
    } else {
      FirstWrittenFacts(entries, hash);
      if FirstWritten(entries, hash).Some? { InBoth(table, entries, FirstWritten(entries, hash).value); }
    }
  }

  /** `LangPackTranslateString` after the search: walk back to the start of the hash group */
  method Lookup(table: seq<Entry>, hash: nat, hit: int) returns (r: Option<Entry>)
    requires IsHit(table, hash, hit)
    ensures r == Found(table, hit)
  {
    if |table| == 0 || hit < 0 { return None; }
    var entry := hit;
    while entry > 0
      invariant 0 <= entry < |table| && table[entry].hash == hash && GroupStart(table, entry) == GroupStart(table, hit)
    {
      entry := entry - 1;
      if table[entry].hash != hash {
        entry := entry + 1;
        return Some(table[entry]);
      }
    }
    return Some(table[entry]);
  }

  // ---------------------------------------------------------------- a pack from its lines to a translation

  lemma {:induction false} SectionsNumbered(ls: seq<Line>, pos: nat)
    ensures forall i :: 0 <= i < |Sections(ls, pos)| ==> Sections(ls, pos)[i].pos == pos + i
  {
    if ls != [] { SectionsNumbered(ls[1..], if ls[0].Header? then pos + 1 else pos); }
  }

  predicate Increasing(ss: seq<Section>) { forall i, j :: 0 <= i < j < |ss| ==> ss[i].pos < ss[j].pos }

  lemma {:induction false} WithTextIncreasing(ss: seq<Section>)
    requires Increasing(ss)
    ensures Increasing(WithText(ss))
    ensures forall i :: 0 <= i < |WithText(ss)| ==> WithText(ss)[i] in ss
  {
    if ss != [] {
      var front := WithText(ss[..|ss| - 1]);
      WithTextIncreasing(ss[..|ss| - 1]);
      forall i | 0 <= i < |front| ensures front[i].pos < ss[|ss| - 1].pos {
        assert front[i] in ss[..|ss| - 1];
      }
    }
  }

  lemma {:induction false} EntriesNumbered(ls: seq<Line>, hash: Hash)
    ensures Numbered(ToEntries(Survivors(Sections(ls, 1)), hash))
  {
    var ss := Sections(ls, 1);
    SectionsNumbered(ls, 1);
    if ss != [] {
      var front := WithText(ss[..|ss| - 1]);
      WithTextIncreasing(ss[..|ss| - 1]);
      forall i | 0 <= i < |front| ensures front[i].pos < ss[|ss| - 1].pos {
        assert front[i] in ss[..|ss| - 1];
      }
    }
  }

  /** The bytes a key is hashed on: its own, or the low bytes of its wide characters. */
  function KeyBytes(key: seq<Unit>): (bs: Text) { seq(|key|, i requires 0 <= i < |key| => key[i] % 0x100) }

  /**
    * A wide lookup finds what a narrow lookup of the low bytes of its characters finds, wherever the two searches land;
    * for characters that fit a byte that is the same text.
    */
  lemma {:induction false} WideAgreesWithNarrow(
      table: seq<Entry>, entries: seq<Entry>, hash: Hash, wide: seq<Unit>, narrow: Text, wideHit: int, narrowHit: int)
    requires IsSortOf(table, entries) && Numbered(entries)
    requires |narrow| == |wide| && forall i :: 0 <= i < |wide| ==> narrow[i] == wide[i] % 0x100
    requires IsHit(table, hash(KeyBytes(wide)), wideHit) && IsHit(table, hash(narrow), narrowHit)
    ensures Found(table, wideHit) == Found(table, narrowHit)
    ensures (forall i :: 0 <= i < |wide| ==> wide[i] <= 0xFF) ==> narrow == wide
  {
    assert KeyBytes(wide) == narrow;
    FoundIsFirstWritten(table, entries, hash(narrow), wideHit);
    FoundIsFirstWritten(table, entries, hash(narrow), narrowHit);
  }

  /** The first section written under this very key. */
  function FirstSection(ss: seq<Section>, key: Text): (r: Option<Section>) {
    if ss == [] then None else if ss[0].key == key then Some(ss[0]) else FirstSection(ss[1..], key)
  }

  /** As long as no other key of the pack has the hash of the one looked up, looking up by hash is looking up by key. */
  lemma {:induction false} HashIsAsGoodAsKey(ss: seq<Section>, hash: Hash, key: Text)
    requires forall i :: 0 <= i < |ss| && hash(ss[i].key) == hash(key) ==> ss[i].key == key
    ensures FirstWritten(ToEntries(ss, hash), hash(key)) ==
      match FirstSection(ss, key) case None => None case Some(s) => Some(ToEntry(s, hash))
  {
    if ss != [] {
      assert ToEntries(ss, hash)[1..] == ToEntries(ss[1..], hash);
      HashIsAsGoodAsKey(ss[1..], hash, key);
    }
  }

  lemma {:induction false} WithTextHasText(ss: seq<Section>)
    ensures forall i :: 0 <= i < |WithText(ss)| ==> WithText(ss)[i].texts != []
  {
    if ss != [] { WithTextHasText(ss[..|ss| - 1]); }
  }

  lemma {:induction false} OnlyLastLacksText(ss: seq<Section>, hash: Hash, i: nat)
    requires i < |Survivors(ss)|
    ensures ToEntries(Survivors(ss), hash)[i].local == None <==> i == |Survivors(ss)| - 1 && ss[|ss| - 1].texts == []
  {
    WithTextHasText(ss[..|ss| - 1]);
  }

  /** The pack ends with a bare header that hashes to h, and nothing that survives before it does. */
  predicate EndsBare(ss: seq<Section>, hash: Hash, h: nat) {
    && ss != [] && ss[|ss| - 1].texts == [] && hash(ss[|ss| - 1].key) == h
    && var es := ToEntries(Survivors(ss), hash);
    forall i :: 0 <= i < |es| - 1 ==> es[i].hash != h
  }

  /** What a lookup answers: the key given to it, NULL, or a text. */
  datatype Answer = Key | Null | Translation(text: Text)

  function AnswerOf(found: Option<Entry>): (a: Answer) {
    match found
    case None => Key
    case Some(e) => if e.local.None? then Null else Translation(e.local.value)
  }

  /** A lookup answers NULL exactly for the bare header at the end of a pack, unless an earlier section has its hash. */
  lemma {:induction false} NullIffEndsBare(ss: seq<Section>, hash: Hash, h: nat)
    ensures AnswerOf(FirstWritten(ToEntries(Survivors(ss), hash), h)) == Null <==> EndsBare(ss, hash, h)
  {
    var es := ToEntries(Survivors(ss), hash);
    FirstWrittenFacts(es, h);
    if ss != [] {
      var last := |es| - 1;
      SurvivorsLast(ss);
      OnlyLastLacksText(ss, hash, last);
      if FirstWritten(es, h).Some? {
        var i :| 0 <= i < |es| && es[i] == FirstWritten(es, h).value && es[i].hash == h
              && forall j :: 0 <= j < i ==> es[j].hash != h;
        OnlyLastLacksText(ss, hash, i);
      }
    }
  }

  /** For every pack and key, and whatever `qsort` and `bsearch` do within their contracts. */
  method Translate(lines: seq<Text>, hash: Hash, table: seq<Entry>, key: seq<Unit>, hit: int) returns (r: Answer)
    requires IsSortOf(table, ToEntries(Survivors(Sections(Classified(lines), 1)), hash))
    requires IsHit(table, hash(KeyBytes(key)), hit)
    ensures r == AnswerOf(FirstWritten(ToEntries(Survivors(Sections(Classified(lines), 1)), hash), hash(KeyBytes(key))))
    ensures r == Null <==> EndsBare(Sections(Classified(lines), 1), hash, hash(KeyBytes(key)))
  {
    hide Classify, Survivors, Sections, IsSortOf, EndsBare, FirstWritten, Found;
    ghost var ss := Sections(Classified(lines), 1);
    ghost var entries := ToEntries(Survivors(ss), hash);
    EntriesNumbered(Classified(lines), hash);
    FoundIsFirstWritten(table, entries, hash(KeyBytes(key)), hit);
    NullIffEndsBare(ss, hash, hash(KeyBytes(key)));
    var found := Lookup(table, hash(KeyBytes(key)), hit);
    r := AnswerOf(found);
  }

  lemma BareHeader()
    ensures Classify([0x5B, 0x61, 0x5D]) == Header([0x61])
  {
    var line: Text := [0x5B, 0x61, 0x5D];
    assert line[1..] == [0x61, 0x5D] && line[1..][1..] == [0x5D] && line[1..][1..][1..] == [];
    assert Unescape(line) == [0x5B] + Unescape(line[1..]) == line;
  }

  lemma OneSection(key: Text)
    ensures Sections([Header(key)], 1) == [Section(key, [], 1)]
  {
    assert [Header(key)][1..] == [];
    assert TextsOf([]) == [] && Sections([], 2) == [];
  }

  /** The smallest failing case: in the pack of the one line "[a]", looking up "a" answers NULL. */
  lemma BareHeaderAnswersNull(hash: Hash)
    ensures var ss := Sections(Classified([[0x5B, 0x61, 0x5D]]), 1);
      AnswerOf(FirstWritten(ToEntries(Survivors(ss), hash), hash(KeyBytes([0x61])))) == Null
  {
    hide Classify, Sections;
    var key: Text := [0x61];
    BareHeader();
    OneSection(key);
    var ls := Classified([[0x5B, 0x61, 0x5D]]);
    assert ls == [Header(key)];
    assert KeyBytes(key) == key;
    NullIffEndsBare([Section(key, [], 1)], hash, hash(key));
  }

  // ---------------------------------------------------------------- a pack as a translator writes it

  /** Nothing, a line feed, or a carriage return and a line feed. */
  predicate LineEnd(end: Text) { end == [] || end == [0x0A] || end == [0x0D, 0x0A] }

  lemma TrimmedLine(s: Text, end: Text)
    requires LineEnd(end) && 0x0A !in s && 0x0D !in s
    ensures TrimEnd(s + end) == s
    ensures IsEmpty(s + end) <==> Blank(s)
  {
    var t := s + end;
    assert forall i :: 0 <= i < |s| ==> t[i] == s[i];
    assert end != [] ==> t[|t| - 1] == 0x0A && t[..|t| - 1] == s + end[..|end| - 1];
    if |end| == 2 {
      assert end[..1] == [0x0D] && (s + [0x0D])[|s|] == 0x0D && (s + [0x0D])[..|s|] == s;
    }
    assert s != [] ==> s[|s| - 1] in s;
  }

  /** What every line means that is written with the escapes of the format, whatever its text. */
  lemma {:induction false} LineMeans(u: Text, end: Text)
    requires LineEnd(end)
    ensures Classify(Escaped(u) + end) ==
      if Blank(u) || u[0] == 0x3B then Ignored
      else if |u| >= 2 && u[0] == 0x5B && u[|u| - 1] == 0x5D then Header(TrimEnd(u[..|u| - 1])[1..])
      else Content(u)
  {
    hide IsEmpty, Blank, Unescape, Escaped, TrimEnd;
    EscapedIsOneLine(u);
    EscapedBlank(u);
    UnescapeInverts(u);
    TrimmedLine(Escaped(u), end);
    BlankNothing();
    if u != [] { assert (Escaped(u) + end)[0] == Escaped(u)[0]; }
  }

  lemma BlankNothing()
    ensures Blank([])
  {
  }

  /** A line without a backslash means what it says; only spaces make it blank. */
  lemma {:induction false} PlainLineMeans(s: Text, end: Text)
    requires LineEnd(end) && 0x0A !in s && 0x0D !in s && 0x5C !in s
    ensures Classify(s + end) ==
      if (forall i :: 0 <= i < |s| ==> s[i] == 0x20) || s[0] == 0x3B then Ignored
      else if |s| >= 2 && s[0] == 0x5B && s[|s| - 1] == 0x5D then Header(s[1..|s| - 1])
      else Content(s)
  {
    hide IsEmpty, Unescape, TrimEnd;
    TrimmedLine(s, end);
    UnescapeNone(s);
    if s != [] { assert (s + end)[0] == s[0]; }
    if |s| >= 2 && s[0] == 0x5B {
      var t := s[..|s| - 1];
      assert t[|t| - 1] in s && t == [0x5B] + s[1..|s| - 1];
      KeyStays(s[1..|s| - 1]);
    }
  }

  lemma {:induction false} UnescapeNone(s: Text)
    requires 0x5C !in s
    ensures Unescape(s) == s
  {
    if s != [] { UnescapeNone(s[1..]); }
  }

  /** A text that is not taken for a blank line, a comment or a header. */
  predicate IsText(u: Text) { !Blank(u) && u[0] != 0x3B && !(|u| >= 2 && u[0] == 0x5B && u[|u| - 1] == 0x5D) }

  predicate IsKey(k: Text) { k == [] || (k[|k| - 1] != 0x0A && k[|k| - 1] != 0x0D) }

  /** A key in brackets is the header of a section. */
  lemma {:induction false} HeaderMeans(key: Text, end: Text)
    requires LineEnd(end) && IsKey(key)
    ensures Classify([0x5B] + Escaped(key) + [0x5D] + end) == Header(key)
  {
    hide Classify, Escaped, TrimEnd;
    var u := [0x5B] + key + [0x5D];
    LineMeans(u, end);
    BracketsEscaped(key);
    assert u[0] == 0x5B && u[|u| - 1] == 0x5D && u[..|u| - 1] == [0x5B] + key;
    KeyStays(key);
  }

  lemma BracketsEscaped(key: Text)
    ensures Escaped([0x5B] + key + [0x5D]) == [0x5B] + Escaped(key) + [0x5D]
  {
    assert [0x5B][1..] == [] && [0x5D][1..] == [];
    EscapedConcat([0x5B], key);
    EscapedConcat([0x5B] + key, [0x5D]);
  }

  lemma KeyStays(key: Text)
    requires IsKey(key)
    ensures TrimEnd([0x5B] + key)[1..] == key
  {
    var t := [0x5B] + key;
    assert t[|t| - 1] == if key == [] then 0x5B else key[|key| - 1];
    assert t[1..] == key;
  }

  /** A line that starts with a semicolon is a comment, however it goes on. */
  lemma CommentMeans(rest: Text)
    ensures Classify([0x3B] + rest) == Ignored
  {
  }

  datatype Written = Written(key: Text, texts: seq<Text>)

  predicate IsWritten(w: Written) {
    IsKey(w.key) && w.texts != [] && forall i :: 0 <= i < |w.texts| ==> IsText(w.texts[i])
  }

  function TextLines(texts: seq<Text>): (lines: seq<Text>) {
    seq(|texts|, i requires 0 <= i < |texts| => Escaped(texts[i]) + [0x0A])
  }

  /** The lines of a pack: each key in brackets, its text below it. */
  function PackLines(ws: seq<Written>): (lines: seq<Text>) {
    if ws == [] then [] else
    [[0x5B] + Escaped(ws[0].key) + [0x5D] + [0x0A]] + TextLines(ws[0].texts) + PackLines(ws[1..])
  }

  function Contents(texts: seq<Text>): (ls: seq<Line>) {
    seq(|texts|, i requires 0 <= i < |texts| => Content(texts[i]))
  }

  function Meant(ws: seq<Written>): (ls: seq<Line>) {
    if ws == [] then [] else [Header(ws[0].key)] + Contents(ws[0].texts) + Meant(ws[1..])
  }

  lemma ClassifiedConcat(a: seq<Text>, b: seq<Text>)
    ensures Classified(a + b) == Classified(a) + Classified(b)
  {
    hide Classify;
  }

  lemma TextLinesMean(texts: seq<Text>)
    requires forall i :: 0 <= i < |texts| ==> IsText(texts[i])
    ensures Classified(TextLines(texts)) == Contents(texts)
  {
    hide Classify, Escaped, Blank;
    forall i | 0 <= i < |texts| ensures Classify(TextLines(texts)[i]) == Content(texts[i]) {
      assert IsText(texts[i]);
      LineMeans(texts[i], [0x0A]);
    }
  }

  lemma {:induction false} LinesMean(ws: seq<Written>)
    requires forall i :: 0 <= i < |ws| ==> IsWritten(ws[i])
    ensures Classified(PackLines(ws)) == Meant(ws)
  {
    if ws != [] {
      hide Classify, Escaped, IsText, IsKey, TextLines, Contents;
      var header := [0x5B] + Escaped(ws[0].key) + [0x5D] + [0x0A];
      assert IsWritten(ws[0]);
      HeaderMeans(ws[0].key, [0x0A]);
      TextLinesMean(ws[0].texts);
      LinesMean(ws[1..]);
      ClassifiedConcat([header] + TextLines(ws[0].texts), PackLines(ws[1..]));
      ClassifiedConcat([header], TextLines(ws[0].texts));
      assert Classified([header]) == [Header(ws[0].key)];
    }
  }

  function Numbering(ws: seq<Written>, pos: nat): (ss: seq<Section>) {
    seq(|ws|, i requires 0 <= i < |ws| => Section(ws[i].key, ws[i].texts, pos + i))
  }

  lemma {:induction false} TextsOfContents(texts: seq<Text>, rest: seq<Line>, pos: nat)
    requires rest == [] || rest[0].Header?
    ensures TextsOf(Contents(texts) + rest) == texts && Sections(Contents(texts) + rest, pos) == Sections(rest, pos)
  {
    var ls := Contents(texts) + rest;
    if texts == [] {
      assert ls == rest;
    } else {
      assert ls[1..] == Contents(texts[1..]) + rest && ls[0] == Content(texts[0]);
      TextsOfContents(texts[1..], rest, pos);
    }
  }

  lemma {:induction false} MeantSections(ws: seq<Written>, pos: nat)
    ensures Sections(Meant(ws), pos) == Numbering(ws, pos)
  {
    if ws != [] {
      var rest := Meant(ws[1..]);
      var ls := [Header(ws[0].key)] + Contents(ws[0].texts) + rest;
      assert ls[1..] == Contents(ws[0].texts) + rest;
      TextsOfContents(ws[0].texts, rest, pos + 1);
      MeantSections(ws[1..], pos + 1);
      assert Numbering(ws, pos) == [Section(ws[0].key, ws[0].texts, pos)] + Numbering(ws[1..], pos + 1);
    }
  }

  lemma {:induction false} AllSurvive(ss: seq<Section>)
    requires forall i :: 0 <= i < |ss| ==> ss[i].texts != []
    ensures WithText(ss) == ss && Survivors(ss) == ss
  {
    if ss != [] { AllSurvive(ss[..|ss| - 1]); }
  }

  /** The translation written first under a key. */
  function WrittenFor(ws: seq<Written>, key: Text): (a: Answer) {
    if ws == [] then Key
    else if ws[0].key != key then WrittenFor(ws[1..], key)
    else if ws[0].texts == [] then Null
    else Translation(Joined(ws[0].texts))
  }

  lemma {:induction false} WrittenIsFirstSection(ws: seq<Written>, pos: nat, hash: Hash, key: Text)
    ensures WrittenFor(ws, key) == match FirstSection(Numbering(ws, pos), key)
      case None => Key
      case Some(s) => AnswerOf(Some(ToEntry(s, hash)))
  {
    if ws != [] {
      assert Numbering(ws, pos)[1..] == Numbering(ws[1..], pos + 1);
      WrittenIsFirstSection(ws[1..], pos + 1, hash, key);
    }
  }

  /**
    * A pack as a translator writes it, looked up under a key whose hash no other key shares, answers the text that
    * was written first for that key, or the key itself if there is none.
    */
  lemma {:induction false} WrittenPackTranslates(ws: seq<Written>, hash: Hash, key: Text)
    requires forall i :: 0 <= i < |ws| ==> IsWritten(ws[i])
    requires forall i :: 0 <= i < |ws| && hash(ws[i].key) == hash(key) ==> ws[i].key == key
    ensures var es := ToEntries(Survivors(Sections(Classified(PackLines(ws)), 1)), hash);
      AnswerOf(FirstWritten(es, hash(key))) == WrittenFor(ws, key)
  {
    hide Classified, PackLines, Sections, Survivors, ToEntries, FirstWritten, FirstSection, IsText, IsKey;
    assert forall i :: 0 <= i < |ws| ==> IsWritten(ws[i]) && ws[i].texts != [];
    LinesMean(ws);
    MeantSections(ws, 1);
    var ss := Numbering(ws, 1);
    AllSurvive(ss);
    HashIsAsGoodAsKey(ss, hash, key);
    WrittenIsFirstSection(ws, 1, hash, key);
  }

  /** A text cut into its lines. */
  function LinesOf(t: Text): (ts: seq<Text>)
    ensures ts != []
  {
    if t == [] then [[]] else
    var ts := LinesOf(t[1..]);
    if t[0] == 0x0A then [[]] + ts else [[t[0]] + ts[0]] + ts[1..]
  }

  lemma {:induction false} LinesOfOne(a: Text, rest: Text)
    requires 0x0A !in a
    ensures LinesOf(a) == [a] && LinesOf(a + [0x0A] + rest) == [a] + LinesOf(rest)
  {
    if a == [] {
      assert a + [0x0A] + rest == [0x0A] + rest && ([0x0A] + rest)[1..] == rest;
    } else {
      assert (a + [0x0A] + rest)[1..] == a[1..] + [0x0A] + rest;
      LinesOfOne(a[1..], rest);
      assert [a[0]] + a[1..] == a && LinesOf(a[1..]) == [a[1..]];
    }
  }

  lemma {:induction false} LinesOfConcat(s: Text, a: Text)
    requires 0x0A !in a
    ensures LinesOf(s + [0x0A] + a) == LinesOf(s) + [a]
  {
    if s == [] {
      LinesOfOne([], a);
      LinesOfOne(a, []);
      assert s + [0x0A] + a == [] + [0x0A] + a;
    } else {
      assert (s + [0x0A] + a)[1..] == s[1..] + [0x0A] + a;
      LinesOfConcat(s[1..], a);
    }
  }

  /** The text of a section is its lines, one below the other. */
  lemma {:induction false} JoinedLines(ts: seq<Text>)
    requires ts != [] && forall i :: 0 <= i < |ts| ==> 0x0A !in ts[i]
    ensures LinesOf(Joined(ts)) == ts
  {
    var front, last := ts[..|ts| - 1], ts[|ts| - 1];
    if |ts| == 1 {
      LinesOfOne(last, []);
    } else {
      JoinedLines(front);
      LinesOfConcat(Joined(front), last);
    }
  }
}
