/** Directory synchronisation in Contacts.cpp and mainDlg.cpp: mark the directory's contacts, merge, sweep. */
module Contacts {
  import opened Unicode

  datatype Contact = Contact(number: string, name: string, presence: int, directory: bool, candidate: bool)

  /** One <entry> of the downloaded directory; a presence of -1 was not given. */
  datatype Entry = Entry(number: string, name: string, presence: int)
  {
    predicate Valid() { -1 <= presence <= 1 }
  }

  type Book = seq<Contact>

  // ---------------------------------------------------------------- the steps

  function Mark(c: Contact): (r: Contact) { if c.directory then c.(candidate := true) else c }

  /** `SetCanditates` */
  function Marked(b: Book): (r: Book) { seq(|b|, i requires 0 <= i < |b| => Mark(b[i])) }

  /** `DeleteCanditates` */
  function Swept(b: Book): (r: Book) {
    if b == [] then [] else (if b[0].candidate then [] else [b[0]]) + Swept(b[1..])
  }

  lemma SweptNothing()
    ensures Swept([]) == []
  {
  }

  lemma SweptStep(kept: Book, rest: Book)
    requires rest != []
    ensures kept + Swept(rest) == (if rest[0].candidate then kept else kept + [rest[0]]) + Swept(rest[1..])
  {
    var tail := Swept(rest[1..]);
    assert Swept(rest) == (if rest[0].candidate then [] else [rest[0]]) + tail;
    hide Swept;
    assert [] + tail == tail;
  }

  function IndexOf(b: Book, number: string): (i: int)
    ensures -1 <= i < |b|
    ensures i >= 0 ==> b[i].number == number && forall j :: 0 <= j < i ==> b[j].number != number
    ensures i < 0 ==> forall j :: 0 <= j < |b| ==> b[j].number != number
  {
    if b == [] then -1 else if b[0].number == number then 0 else
    var i := IndexOf(b[1..], number); if i < 0 then -1 else i + 1
  }

  /** An existing contact after an entry with its number. */
  function Merged(c: Contact, e: Entry): (r: Contact) {
    c.(candidate := false,
       name := if e.name != "" then e.name else c.name,
       presence := if e.presence != -1 then e.presence else c.presence)
  }

  predicate Reflects(c: Contact, e: Entry) {
    (e.name == "" || c.name == e.name) && (e.presence == -1 || c.presence == e.presence)
  }

  function Created(e: Entry, fromDirectory: bool): (c: Contact) {
    Contact(e.number, if e.name == "" then e.number else e.name, if e.presence > 0 then 1 else 0, fromDirectory, false)
  }

  /** An entry merged into the contact with its number; a new one goes to the top. */
  function Upserted(b: Book, e: Entry, directory: bool): (r: Book) {
    var i := IndexOf(b, e.number);
    if i >= 0 then b[i := Merged(b[i], e)] else [Created(e, directory)] + b
  }

  predicate Changes(b: Book, e: Entry) {
    var i := IndexOf(b, e.number);
    i < 0 || !Reflects(b[i], e)
  }

  /** How `ContactAdd` is called: for a directory entry, by the add dialog, while loading; `directory` -1 is `None`. */
  datatype Call = Call(directory: Option<bool>, save: bool, fromDirectory: bool)
  {
    predicate Searches() { save || fromDirectory }

    function Origin(was: bool): (now: bool) { if !fromDirectory && directory.Some? then directory.value else was }
  }

  const DIRECTORY_ENTRY := Call(Some(true), false, true)
  const ADD_DIALOG := Call(None, true, false)

  function Loading(directory: bool): (call: Call) { Call(Some(directory), false, false) }

  /** `ContactAdd` */
  function Added(b: Book, e: Entry, call: Call): (r: Book) {
    var i := IndexOf(b, e.number);
    if call.Searches() && i >= 0 then b[i := Merged(b[i], e).(directory := call.Origin(b[i].directory))]
    else [Created(e, call.directory == Some(true))] + b
  }

  /** Its result: whether anything but the mark changed. */
  predicate AddChanges(b: Book, e: Entry, call: Call) {
    var i := IndexOf(b, e.number);
    call.Searches() && i >= 0 ==> !Reflects(b[i], e) || call.Origin(b[i].directory) != b[i].directory
  }

  /** The three ways in which the program calls it. */
  lemma AddedCases(b: Book, e: Entry, directory: bool)
    ensures Added(b, e, DIRECTORY_ENTRY) == Upserted(b, e, true)
    ensures AddChanges(b, e, DIRECTORY_ENTRY) <==> Changes(b, e)
    ensures Added(b, e, ADD_DIALOG) == Upserted(b, e, false) && (AddChanges(b, e, ADD_DIALOG) <==> Changes(b, e))
    ensures Added(b, e, Loading(directory)) == [Created(e, directory)] + b && AddChanges(b, e, Loading(directory))
  {
  }

  /** The entries with a number, merged in order. */
  function MergedAll(b: Book, es: seq<Entry>): (r: Book) {
    if es == [] then b else
    var e, b' := es[|es| - 1], MergedAll(b, es[..|es| - 1]);
    if e.number == "" then b' else Upserted(b', e, true)
  }

  predicate AnyChange(b: Book, es: seq<Entry>) {
    es != [] && (AnyChange(b, es[..|es| - 1]) ||
                 (es[|es| - 1].number != "" && Changes(MergedAll(b, es[..|es| - 1]), es[|es| - 1])))
  }

  predicate Numbered(es: seq<Entry>) { exists i :: 0 <= i < |es| && es[i].number != "" }

  /** `onUsersDirectoryLoaded`: without a numbered entry nothing is swept, and the marks stay. */
  function Synced(b: Book, es: seq<Entry>): (r: Book) {
    var b' := MergedAll(Marked(b), es);
    if Numbered(es) then Swept(b') else b'
  }

  /** A contact as it is written to the file; a presence is written as 1 or 0. */
  function Saved(c: Contact): (e: Entry) { Entry(c.number, c.name, if c.presence != 0 then 1 else 0) }

  /** The list built by loading these contacts in order; those without a number are left out. */
  function Reloaded(b: Book): (r: Book) {
    if b == [] then [] else
    var c, r := b[|b| - 1], Reloaded(b[..|b| - 1]);
    if c.number == "" then r else [Created(Saved(c), c.directory)] + r
  }

  // ---------------------------------------------------------------- the class

  class Page {
    var items: Book

    constructor ()
      ensures items == []
    {
      items := [];
    }

    method SetCanditates()
      modifies this
      ensures items == Marked(old(items))
    {
      var i := 0;
      while i < |items|
        invariant 0 <= i <= |items| == |old(items)|
        invariant forall j :: 0 <= j < |items| ==> items[j] == if j < i then Mark(old(items)[j]) else old(items)[j]
      {
        if items[i].directory { items := items[i := items[i].(candidate := true)]; }
        i := i + 1;
      }
    }

    /** Removing item i steps neither i nor past the end: the next one has moved into its place. */
    method DeleteCanditates() returns (deleted: nat)
      modifies this
      ensures items == Swept(old(items)) && deleted == |old(items)| - |items|
    {
      hide Swept;
      deleted := 0;
      var i, count := 0, |items|;
      ghost var kept, rest := [], items;
      SweptNothing();
      while i < count
        invariant i <= count == |items| && deleted == |old(items)| - count
        invariant |kept| == i && items == kept + rest && Swept(old(items)) == kept + Swept(rest)
        decreases count - i
      {
        SweptStep(kept, rest);
        assert items[i] == rest[0] && items[i + 1..] == rest[1..] && items[..i] == kept;
        if items[i].candidate {
          items := items[..i] + items[i + 1..];
          count := count - 1;
          deleted := deleted + 1;
        } else {
          kept := kept + [items[i]];
          i := i + 1;
        }
        rest := rest[1..];
      }
      assert kept + [] == kept;
    }

    method ContactAdd(e: Entry, call: Call) returns (changed: bool)
      modifies this
      ensures items == Added(old(items), e, call) && changed == AddChanges(old(items), e, call)
    {
      if call.fromDirectory || call.save {
        var i := 0;
        while i < |items|
          invariant 0 <= i <= |items| && items == old(items)
          invariant forall j :: 0 <= j < i ==> items[j].number != e.number
        {
          if items[i].number == e.number {
            var c := items[i].(candidate := false);
            changed := false;
            if e.name != "" && e.name != c.name {
              c := c.(name := e.name);
              changed := true;
            }
            if e.presence != -1 && e.presence != c.presence {
              c := c.(presence := e.presence);
              changed := true;
            }
            if !call.fromDirectory && call.directory.Some? && call.directory.value != c.directory {
              c := c.(directory := call.directory.value);
              changed := true;
            }
            items := items[i := c];
            return;
          }
          i := i + 1;
        }
      }
      var name := if e.name == "" then e.number else e.name;
      var c := Contact(e.number, name, if e.presence > 0 then 1 else 0, call.directory == Some(true), false);
      items := [c] + items;
      return true;
    }

    /** `ContactsLoad`, from the contacts as `ContactsSave` wrote them, top first: each one goes on top. */
    method ContactsLoad(file: Book)
      requires items == []
      modifies this
      ensures items == Reloaded(file)
    {
      for k := 0 to |file|
        invariant items == Reloaded(file[..k])
      {
        var c := file[k];
        assert file[..k + 1][..k] == file[..k];
        if c.number != "" {
          AddedCases(items, Saved(c), c.directory);
          var changed := ContactAdd(Saved(c), Loading(c.directory));
        }
      }
      assert file[..|file|] == file;
    }

    /** The synchronisation loop; `save` is whether the file is rewritten. */
    method OnUsersDirectoryLoaded(es: seq<Entry>) returns (save: bool)
      modifies this
      ensures items == Synced(old(items), es)
      ensures save <==>
        Numbered(es) && (AnyChange(Marked(old(items)), es) || |items| < |MergedAll(Marked(old(items)), es)|)
    {
      hide Upserted, Changes, Swept, Added, AddChanges;
      var ok, changed := false, false;
      SetCanditates();
      ghost var marked := items;
      for k := 0 to |es|
        invariant items == MergedAll(marked, es[..k]) && changed == AnyChange(marked, es[..k])
        invariant ok <==> exists i :: 0 <= i < k && es[i].number != ""
      {
        assert es[..k + 1][..k] == es[..k];
        if es[k].number != "" {
          AddedCases(items, es[k], true);
          var c := ContactAdd(es[k], DIRECTORY_ENTRY);
          changed := changed || c;
          ok := true;
        }
      }
      assert es[..|es|] == es;
      save := false;
      if ok {
        var deleted := DeleteCanditates();
        save := deleted > 0 || changed;
      }
    }
  }

  // ---------------------------------------------------------------- what a synchronisation does, number by number

  predicate DistinctNumbers(b: Book) { forall i, j :: 0 <= i < j < |b| ==> b[i].number != b[j].number }

  /** Only directory contacts are ever marked. */
  predicate MarksFromDirectory(b: Book) { forall i :: 0 <= i < |b| ==> b[i].candidate ==> b[i].directory }

  function Get(b: Book, n: string): (r: Option<Contact>) {
    var i := IndexOf(b, n);
    if i < 0 then None else Some(b[i])
  }

  lemma GetAt(b: Book, i: nat)
    requires DistinctNumbers(b) && i < |b|
    ensures Get(b, b[i].number) == Some(b[i]) && IndexOf(b, b[i].number) == i
  {
  }

  lemma MarkedGet(b: Book, n: string)
    ensures Get(Marked(b), n) == match Get(b, n) case None => None case Some(c) => Some(Mark(c))
    ensures DistinctNumbers(b) ==> DistinctNumbers(Marked(b))
  {
    var i, j := IndexOf(b, n), IndexOf(Marked(b), n);
    if i >= 0 { assert Marked(b)[i].number == n; }
    if j >= 0 { assert Marked(b)[j].number == b[j].number; }
  }

  lemma UpsertedGet(b: Book, e: Entry, dir: bool, n: string)
    requires DistinctNumbers(b)
    ensures DistinctNumbers(Upserted(b, e, dir))
    ensures Get(Upserted(b, e, dir), n) == if n != e.number then Get(b, n)
      else Some(match Get(b, n) case None => Created(e, dir) case Some(c) => Merged(c, e))
  {
    var i, r := IndexOf(b, e.number), Upserted(b, e, dir);
    if i >= 0 {
      assert forall j :: 0 <= j < |b| ==> r[j].number == b[j].number;
      SameNumbers(b, r, n);
    } else {
      assert forall j :: 1 <= j < |r| ==> r[j] == b[j - 1];
      ConsGet(Created(e, dir), b, n);
    }
  }

  lemma ConsGet(c: Contact, b: Book, n: string)
    ensures Get([c] + b, n) == if c.number == n then Some(c) else Get(b, n)
  {
  }

  lemma SameNumbers(b: Book, r: Book, n: string)
    requires |b| == |r| && forall j :: 0 <= j < |b| ==> r[j].number == b[j].number
    ensures IndexOf(r, n) == IndexOf(b, n)
  {
  }

  lemma DistinctCons(c: Contact, b: Book)
    ensures DistinctNumbers([c] + b) <==> DistinctNumbers(b) && Get(b, c.number) == None
  {
    hide IndexOf;
    var r := [c] + b;
    if Get(b, c.number).Some? { assert r[IndexOf(b, c.number) + 1].number == r[0].number; }
    if DistinctNumbers(r) {
      forall i, j | 0 <= i < j < |b| ensures b[i].number != b[j].number { assert r[i + 1] == b[i] && r[j + 1] == b[j]; }
    }
  }

  lemma {:induction false} SweptGet(b: Book, n: string)
    requires DistinctNumbers(b)
    ensures DistinctNumbers(Swept(b))
    ensures Get(Swept(b), n) == match Get(b, n) case None => None case Some(c) => if c.candidate then None else Some(c)
  {
    if b != [] {
      hide IndexOf, DistinctNumbers, Get;
      var c, rest := b[0], b[1..];
      assert b == [c] + rest;
      DistinctCons(c, rest);
      SweptGet(rest, n);
      SweptGet(rest, c.number);
      ConsGet(c, rest, n);
      ConsGet(c, Swept(rest), n);
      DistinctCons(c, Swept(rest));
      assert [] + Swept(rest) == Swept(rest);
    }
  }

  lemma {:induction false} SweptUnmarked(b: Book)
    ensures forall i :: 0 <= i < |Swept(b)| ==> !Swept(b)[i].candidate
  {
    if b != [] { SweptUnmarked(b[1..]); }
  }

  predicate Listed(es: seq<Entry>, n: string) { n != "" && exists i :: 0 <= i < |es| && es[i].number == n }

  lemma ListedLast(es: seq<Entry>, n: string)
    requires es != []
    ensures Listed(es, n) <==> Listed(es[..|es| - 1], n) || (n != "" && es[|es| - 1].number == n)
  {
  }

  /** Merging touches exactly the listed numbers: marks are cleared, origins are kept, new ones are the directory's. */
  lemma {:induction false} MergedAllGet(b: Book, es: seq<Entry>, n: string)
    requires DistinctNumbers(b)
    ensures DistinctNumbers(MergedAll(b, es))
    ensures !Listed(es, n) ==> Get(MergedAll(b, es), n) == Get(b, n)
    ensures Listed(es, n) ==> match Get(MergedAll(b, es), n)
      case None => false
      case Some(c) => c.number == n && !c.candidate && c.directory == (Get(b, n).Some? ==> Get(b, n).value.directory)
  {
    hide Upserted, DistinctNumbers, IndexOf;
    if es != [] {
      var front, e := es[..|es| - 1], es[|es| - 1];
      MergedAllGet(b, front, n);
      ListedLast(es, n);
      UpsertedGet(MergedAll(b, front), e, true, n);
    }
  }

  predicate AllValid(es: seq<Entry>) { forall k :: 0 <= k < |es| ==> es[k].Valid() }

  /** The last name given for a number, the last presence given for it, and what counts if none was given. */
  function LastName(es: seq<Entry>, n: string, name: string): (r: string) {
    if es == [] then name else
    var e := es[|es| - 1];
    if e.number == n && e.name != "" then e.name else LastName(es[..|es| - 1], n, name)
  }

  function LastPresence(es: seq<Entry>, n: string, presence: int): (r: int) {
    if es == [] then presence else
    var e := es[|es| - 1];
    if e.number == n && e.presence != -1 then e.presence else LastPresence(es[..|es| - 1], n, presence)
  }

  /** What a listed number ends up with: the last values given, else those it had, else its number and no presence. */
  function Merging(was: Option<Contact>, es: seq<Entry>, n: string): (c: Contact) {
    match was
    case None => Contact(n, LastName(es, n, n), LastPresence(es, n, 0), true, false)
    case Some(c) => Contact(n, LastName(es, n, c.name), LastPresence(es, n, c.presence), c.directory, false)
  }

  lemma {:induction false} LastUnlisted(es: seq<Entry>, n: string, name: string, presence: int)
    requires n != "" && !Listed(es, n)
    ensures LastName(es, n, name) == name && LastPresence(es, n, presence) == presence
  {
    if es != [] {
      ListedLast(es, n);
      LastUnlisted(es[..|es| - 1], n, name, presence);
    }
  }

  /** Merging fixes the contents of every listed contact, whatever their order and however often a number is listed. */
  lemma {:induction false} MergedContents(b: Book, es: seq<Entry>, n: string)
    requires DistinctNumbers(b) && AllValid(es) && Listed(es, n)
    ensures Get(MergedAll(b, es), n) == Some(Merging(Get(b, n), es, n))
  {
    hide Upserted, DistinctNumbers, IndexOf;
    var front, e := es[..|es| - 1], es[|es| - 1];
    MergedAllGet(b, front, n);
    ListedLast(es, n);
    UpsertedGet(MergedAll(b, front), e, true, n);
    GetNumber(b, n);
    if Listed(front, n) {
      MergedContents(b, front, n);
    } else {
      LastUnlisted(front, n, if Get(b, n).Some? then Get(b, n).value.name else n,
                   if Get(b, n).Some? then Get(b, n).value.presence else 0);
    }
  }

  lemma GetNumber(b: Book, n: string)
    ensures Get(b, n).Some? ==> Get(b, n).value.number == n
  {
  }

  /** The whole effect of a synchronisation that brought at least one number. */
  lemma {:induction false} SyncedGet(b: Book, es: seq<Entry>, n: string)
    requires DistinctNumbers(b) && MarksFromDirectory(b) && Numbered(es)
    ensures DistinctNumbers(Synced(b, es))
    ensures forall i :: 0 <= i < |Synced(b, es)| ==> !Synced(b, es)[i].candidate
    ensures Listed(es, n) ==> match Get(Synced(b, es), n)
      case None => false
      case Some(c) => c.number == n && c.directory == (Get(b, n).Some? ==> Get(b, n).value.directory)
    ensures Listed(es, n) && AllValid(es) ==> Get(Synced(b, es), n) == Some(Merging(Get(b, n), es, n))
    ensures !Listed(es, n) ==>
      Get(Synced(b, es), n) == if Get(b, n).Some? && !Get(b, n).value.directory then Get(b, n) else None
  {
    assert Get(b, n).Some? && Get(b, n).value.candidate ==> Get(b, n).value.directory;
    hide IndexOf, DistinctNumbers, Get, Marked, MergedAll, Swept;
    MarkedGet(b, n);
    MergedAllGet(Marked(b), es, n);
    SweptGet(MergedAll(Marked(b), es), n);
    SweptUnmarked(MergedAll(Marked(b), es));
    if Listed(es, n) && AllValid(es) { MergedContents(Marked(b), es, n); }
  }

  /** Numbers after a synchronisation: the manual ones and the directory's, and no others. */
  lemma {:induction false} SyncedNumbers(b: Book, es: seq<Entry>, n: string)
    requires DistinctNumbers(b) && MarksFromDirectory(b) && Numbered(es)
    ensures Get(Synced(b, es), n).Some? <==> Listed(es, n) || (Get(b, n).Some? && !Get(b, n).value.directory)
    ensures Get(b, n).Some? && !Get(b, n).value.directory ==>
      Get(Synced(b, es), n).Some? && !Get(Synced(b, es), n).value.directory
  {
    hide Synced, Get;
    SyncedGet(b, es, n);
  }

  // ---------------------------------------------------------------- every reachable book

  datatype Op = Sync(entries: seq<Entry>) | UserAdd(entry: Entry) | Delete(index: nat) | Reload

  function Apply(b: Book, op: Op): (r: Book) {
    match op
    case Sync(es) => Synced(b, es)
    case UserAdd(e) => Upserted(b, e, false)
    case Delete(i) => if i < |b| then b[..i] + b[i + 1..] else b
    case Reload => Reloaded(b)
  }

  function Run(b: Book, ops: seq<Op>): (r: Book)
    decreases |ops|
  {
    if ops == [] then b else Run(Apply(b, ops[0]), ops[1..])
  }

  lemma {:induction false} MergedAllMarks(b: Book, es: seq<Entry>)
    requires MarksFromDirectory(b)
    ensures MarksFromDirectory(MergedAll(b, es))
  {
    hide IndexOf;
    if es != [] { MergedAllMarks(b, es[..|es| - 1]); }
  }

  lemma {:induction false} ApplyKeepsBook(b: Book, op: Op)
    requires DistinctNumbers(b) && MarksFromDirectory(b)
    ensures DistinctNumbers(Apply(b, op)) && MarksFromDirectory(Apply(b, op))
  {
    hide IndexOf;
    match op
    case Sync(es) =>
      MarkedGet(b, "");
      MergedAllGet(Marked(b), es, "");
      SweptGet(MergedAll(Marked(b), es), "");
      SweptUnmarked(MergedAll(Marked(b), es));
      MergedAllMarks(Marked(b), es);
    case UserAdd(e) =>
      UpsertedGet(b, e, false, "");
    case Delete(i) =>
    case Reload =>
      ReloadedGet(b, "");
      ReloadedUnmarked(b);
  }

  /** From the empty list, no run ever duplicates a number or marks a manual contact. */
  lemma {:induction false} RunKeepsBook(b: Book, ops: seq<Op>)
    requires DistinctNumbers(b) && MarksFromDirectory(b)
    ensures DistinctNumbers(Run(b, ops)) && MarksFromDirectory(Run(b, ops))
    decreases |ops|
  {
    hide DistinctNumbers, MarksFromDirectory, Apply;
    if ops != [] {
      ApplyKeepsBook(b, ops[0]);
      RunKeepsBook(Apply(b, ops[0]), ops[1..]);
    }
  }

  // ---------------------------------------------------------------- saving and loading

  lemma {:induction false} ReloadedGet(b: Book, n: string)
    requires DistinctNumbers(b)
    ensures DistinctNumbers(Reloaded(b))
    ensures Get(Reloaded(b), n) == match Get(b, n)
      case None => None
      case Some(c) => if n == "" then None else Some(Created(Saved(c), c.directory))
  {
    if b != [] {
      var front, c := b[..|b| - 1], b[|b| - 1];
      assert b == front + [c];
      hide IndexOf, Get;
      DistinctSnoc(front, c);
      ReloadedGet(front, n);
      ReloadedGet(front, c.number);
      SnocGet(front, c, n);
      ConsGet(Created(Saved(c), c.directory), Reloaded(front), n);
      DistinctCons(Created(Saved(c), c.directory), Reloaded(front));
    }
  }

  lemma {:induction false} ReloadedUnmarked(b: Book)
    ensures forall i :: 0 <= i < |Reloaded(b)| ==> !Reloaded(b)[i].candidate
  {
    if b != [] { ReloadedUnmarked(b[..|b| - 1]); }
  }

  lemma {:induction false} SnocGet(b: Book, c: Contact, n: string)
    ensures Get(b + [c], n) == if Get(b, n).Some? then Get(b, n) else if c.number == n then Some(c) else None
  {
    if b == [] {
      assert b + [c] == [c];
      assert [c][1..] == [];
    } else {
      assert (b + [c])[1..] == b[1..] + [c];
      SnocGet(b[1..], c, n);
    }
  }

  lemma DistinctSnoc(b: Book, c: Contact)
    requires DistinctNumbers(b + [c])
    ensures DistinctNumbers(b) && Get(b, c.number) == None
  {
    hide IndexOf;
    var r := b + [c];
    assert r[|b|] == c;
    assert forall i :: 0 <= i < |b| ==> r[i] == b[i] && r[i].number != r[|b|].number;
  }

  /** Contacts with a name and a presence of 0 or 1 come back from the file as they were, without their marks. */
  lemma ReloadKeepsContact(b: Book, n: string)
    requires DistinctNumbers(b) && n != "" && Get(b, n).Some?
    requires Get(b, n).value.name != "" && 0 <= Get(b, n).value.presence <= 1
    ensures Get(Reloaded(b), n) == Some(Get(b, n).value.(candidate := false))
  {
    hide IndexOf;
    ReloadedGet(b, n);
    GetNumber(b, n);
  }

  // ---------------------------------------------------------------- synchronising twice

  /** Two entries for one number do not contradict each other. */
  predicate Agree(d: Entry, e: Entry) {
    d.number == e.number != "" ==>
      (d.name == e.name || d.name == "" || e.name == "") &&
      (d.presence == e.presence || d.presence == -1 || e.presence == -1)
  }

  predicate Consistent(es: seq<Entry>) { forall i, j :: 0 <= i < |es| && 0 <= j < |es| ==> Agree(es[i], es[j]) }

  /** The book shows what the entry says. */
  predicate Shows(r: Book, e: Entry) {
    e.number != "" ==> Get(r, e.number).Some? && Reflects(Get(r, e.number).value, e)
  }

  predicate ShowsAll(r: Book, es: seq<Entry>) { forall k :: 0 <= k < |es| ==> Shows(r, es[k]) }

  /** Nothing is marked, every directory contact is listed, and every listed number is there with its last values. */
  ghost predicate UpToDate(r: Book, es: seq<Entry>) {
    && DistinctNumbers(r)
    && (forall i :: 0 <= i < |r| ==> !r[i].candidate && (r[i].directory ==> Listed(es, r[i].number)))
    && (forall n :: Listed(es, n) ==> Get(r, n).Some? && Merging(Get(r, n), es, n) == Get(r, n).value)
  }

  lemma {:induction false} LastTwice(es: seq<Entry>, n: string, name: string, presence: int)
    ensures LastName(es, n, LastName(es, n, name)) == LastName(es, n, name)
    ensures LastPresence(es, n, LastPresence(es, n, presence)) == LastPresence(es, n, presence)
  {
    if es != [] { LastTwice(es[..|es| - 1], n, name, presence); }
  }

  lemma {:induction false} SyncedIsUpToDate(b: Book, es: seq<Entry>)
    requires DistinctNumbers(b) && MarksFromDirectory(b) && Numbered(es) && AllValid(es)
    ensures UpToDate(Synced(b, es), es)
  {
    hide Synced, IndexOf, DistinctNumbers, Listed, AllValid, Get, LastName, LastPresence;
    var r := Synced(b, es);
    SyncedGet(b, es, "");
    forall i | 0 <= i < |r| ensures r[i].directory ==> Listed(es, r[i].number) {
      SyncedGet(b, es, r[i].number);
      GetAt(r, i);
    }
    forall n | Listed(es, n) ensures Get(r, n).Some? && Merging(Get(r, n), es, n) == Get(r, n).value {
      SyncedGet(b, es, n);
      var was := Get(b, n);
      LastTwice(es, n, if was.Some? then was.value.name else n, if was.Some? then was.value.presence else 0);
    }
  }

  /** Merging entries whose numbers are all there moves nothing. */
  lemma {:induction false} MergedInPlace(b: Book, es: seq<Entry>)
    requires forall n :: Listed(es, n) ==> Get(b, n).Some?
    ensures |MergedAll(b, es)| == |b| && forall i :: 0 <= i < |b| ==> MergedAll(b, es)[i].number == b[i].number
  {
    if es != [] {
      var front, e := es[..|es| - 1], es[|es| - 1];
      forall n | Listed(front, n) ensures Get(b, n).Some? { ListedLast(es, n); }
      MergedInPlace(b, front);
      if e.number != "" {
        ListedLast(es, e.number);
        SameNumbers(b, MergedAll(b, front), e.number);
      }
    }
  }

  /** Merging the entries into a book that is up to date gives the book back. */
  lemma {:induction false} MergedUpToDate(r: Book, es: seq<Entry>)
    requires UpToDate(r, es) && AllValid(es)
    ensures MergedAll(Marked(r), es) == r
  {
    hide IndexOf, DistinctNumbers, Listed, Get, LastName, LastPresence, Marked;
    var m, b := Marked(r), MergedAll(Marked(r), es);
    MarkedGet(r, "");
    MergedAllGet(m, es, "");
    forall n | Listed(es, n) ensures Get(m, n).Some? { MarkedGet(r, n); }
    MergedInPlace(m, es);
    assert |m| == |r| by { MarkedNumbers(r); }
    forall i | 0 <= i < |r| ensures b[i] == r[i] {
      var n := r[i].number;
      MarkedNumbers(r);
      GetAt(r, i);
      GetAt(b, i);
      MarkedGet(r, n);
      MergedAllGet(m, es, n);
      if Listed(es, n) { MergedContents(m, es, n); }
    }
  }

  lemma MarkedNumbers(b: Book)
    ensures |Marked(b)| == |b| && forall i :: 0 <= i < |b| ==> Marked(b)[i].number == b[i].number
  {
  }

  lemma {:induction false} SweptAll(b: Book)
    requires forall i :: 0 <= i < |b| ==> !b[i].candidate
    ensures Swept(b) == b
  {
    if b != [] { SweptAll(b[1..]); }
  }

  lemma SyncedIs(b: Book, es: seq<Entry>)
    requires Numbered(es)
    ensures Synced(b, es) == Swept(MergedAll(Marked(b), es))
  {
  }

  /** Where a name or presence is given for a number, the last one comes from an entry. */
  lemma {:induction false} LastNameGiven(es: seq<Entry>, n: string, name: string, k: nat) returns (j: nat)
    requires k < |es| && es[k].number == n && es[k].name != ""
    ensures j < |es| && es[j].number == n && es[j].name == LastName(es, n, name) != ""
  {
    j := |es| - 1;
    if !(es[j].number == n && es[j].name != "") { j := LastNameGiven(es[..j], n, name, k); }
  }

  lemma {:induction false} LastPresenceGiven(es: seq<Entry>, n: string, presence: int, k: nat) returns (j: nat)
    requires k < |es| && es[k].number == n && es[k].presence != -1
    ensures j < |es| && es[j].number == n && es[j].presence == LastPresence(es, n, presence) != -1
  {
    j := |es| - 1;
    if !(es[j].number == n && es[j].presence != -1) { j := LastPresenceGiven(es[..j], n, presence, k); }
  }

  /** A book that is up to date shows every entry exactly if the entries do not contradict each other. */
  lemma {:induction false} ShowsAllIffConsistent(r: Book, es: seq<Entry>)
    requires UpToDate(r, es)
    ensures ShowsAll(r, es) <==> Consistent(es)
  {
    hide DistinctNumbers, Get, LastName, LastPresence;
    if ShowsAll(r, es) {
      forall i, j | 0 <= i < |es| && 0 <= j < |es| ensures Agree(es[i], es[j]) {
        assert Shows(r, es[i]) && Shows(r, es[j]);
      }
    }
    if Consistent(es) {
      forall k | 0 <= k < |es| && es[k].number != "" ensures Shows(r, es[k]) {
        var n := es[k].number;
        assert Listed(es, n);
        var c := Get(r, n).value;
        if es[k].name != "" {
          var j := LastNameGiven(es, n, c.name, k);
          assert Agree(es[k], es[j]);
        }
        if es[k].presence != -1 {
          var j := LastPresenceGiven(es, n, c.presence, k);
          assert Agree(es[k], es[j]);
        }
      }
    }
  }

  predicate SameButMarks(b: Book, r: Book) {
    |b| == |r| && forall i :: 0 <= i < |r| ==> b[i] == r[i] || b[i] == Mark(r[i])
  }

  /** One entry, merged into a book that differs from an unmarked one in its marks alone. */
  lemma MergeIntoSame(b: Book, r: Book, e: Entry)
    requires SameButMarks(b, r) && Get(r, e.number).Some? && forall i :: 0 <= i < |r| ==> !r[i].candidate
    ensures Changes(b, e) <==> !Reflects(Get(r, e.number).value, e)
    ensures Reflects(Get(r, e.number).value, e) ==> SameButMarks(Upserted(b, e, true), r)
  {
    hide IndexOf;
    SameNumbers(r, b, e.number);
  }

  /** Repeating the entries reports a change exactly if one of them is not shown already. */
  lemma {:induction false} ChangesUnlessShown(r: Book, es: seq<Entry>)
    requires (forall i :: 0 <= i < |r| ==> !r[i].candidate) && forall n :: Listed(es, n) ==> Get(r, n).Some?
    ensures AnyChange(Marked(r), es) <==> !ShowsAll(r, es)
    ensures ShowsAll(r, es) ==> SameButMarks(MergedAll(Marked(r), es), r)
  {
    if es != [] {
      hide Get, Upserted, Changes, Marked, Reflects, Listed;
      var front, e := es[..|es| - 1], es[|es| - 1];
      forall n | Listed(front, n) ensures Get(r, n).Some? { ListedLast(es, n); }
      ChangesUnlessShown(r, front);
      ShowsLast(r, es);
      if e.number != "" && ShowsAll(r, front) {
        ListedLast(es, e.number);
        MergeIntoSame(MergedAll(Marked(r), front), r, e);
      }
    }
  }

  lemma ShowsLast(r: Book, es: seq<Entry>)
    requires es != []
    ensures ShowsAll(r, es) <==> ShowsAll(r, es[..|es| - 1]) && Shows(r, es[|es| - 1])
  {
    assert es == es[..|es| - 1] + [es[|es| - 1]];
  }

  /**
    * Repeating a synchronisation changes no contact and deletes none; it saves the file again exactly if two entries
    * contradict each other.
    */
  lemma {:induction false} SyncTwice(b: Book, es: seq<Entry>)
    requires DistinctNumbers(b) && MarksFromDirectory(b) && Numbered(es) && AllValid(es)
    ensures var r := Synced(b, es);
      Synced(r, es) == r && |MergedAll(Marked(r), es)| == |r| && (AnyChange(Marked(r), es) <==> !Consistent(es))
  {
    hide Synced, IndexOf, DistinctNumbers, MarksFromDirectory, Numbered, AllValid, Consistent, ShowsAll, Merging;
    var r := Synced(b, es);
    SyncedIsUpToDate(b, es);
    MergedUpToDate(r, es);
    SweptAll(r);
    SyncedIs(r, es);
    ChangesUnlessShown(r, es);
    ShowsAllIffConsistent(r, es);
  }

  // ---------------------------------------------------------------- what need not be saved

  predicate SameContact(c: Contact, d: Contact) {
    c.number == d.number && c.name == d.name && c.presence == d.presence && c.directory == d.directory
  }

  predicate SameContacts(b: Book, r: Book) { |b| == |r| && forall i :: 0 <= i < |r| ==> SameContact(b[i], r[i]) }

  lemma UnchangedEntry(b: Book, e: Entry)
    requires !Changes(b, e)
    ensures SameContacts(Upserted(b, e, true), b)
  {
    hide IndexOf;
  }

  lemma SameContactsTrans(a: Book, b: Book, c: Book)
    requires SameContacts(a, b) && SameContacts(b, c)
    ensures SameContacts(a, c)
  {
  }

  lemma {:induction false} UnchangedKeeps(b: Book, es: seq<Entry>)
    requires !AnyChange(b, es)
    ensures SameContacts(MergedAll(b, es), b)
  {
    if es != [] {
      hide SameContacts, Upserted, Changes;
      var front, e := es[..|es| - 1], es[|es| - 1];
      UnchangedKeeps(b, front);
      if e.number != "" {
        UnchangedEntry(MergedAll(b, front), e);
        SameContactsTrans(MergedAll(b, es), MergedAll(b, front), b);
      }
    } else {
      assert MergedAll(b, es) == b;
    }
  }

  lemma {:induction false} SweptLength(b: Book)
    ensures |Swept(b)| <= |b| && (|Swept(b)| == |b| ==> Swept(b) == b)
  {
    if b != [] { SweptLength(b[1..]); }
  }

  /** A synchronisation that does not rewrite the file has left the list as it was, apart from its marks. */
  lemma {:induction false} UnsavedSyncChangesNothing(b: Book, es: seq<Entry>)
    requires Numbered(es) && !AnyChange(Marked(b), es) && !(|Synced(b, es)| < |MergedAll(Marked(b), es)|)
    ensures SameContacts(Synced(b, es), b)
  {
    hide Swept, MergedAll, AnyChange;
    var m := MergedAll(Marked(b), es);
    SweptLength(m);
    UnchangedKeeps(Marked(b), es);
  }

  lemma {:induction false} NothingToMerge(b: Book, es: seq<Entry>)
    requires !Numbered(es)
    ensures MergedAll(b, es) == b
  {
    if es != [] {
      var front := es[..|es| - 1];
      assert forall i :: 0 <= i < |front| ==> front[i] == es[i];
      assert es[|es| - 1].number == "";
      NothingToMerge(b, front);
    }
  }

  /** A directory without a single number, such as an empty answer, deletes and changes nothing. */
  lemma {:induction false} EmptySyncKeeps(b: Book, es: seq<Entry>)
    requires !Numbered(es)
    ensures SameContacts(Synced(b, es), b)
  {
    NothingToMerge(Marked(b), es);
  }

  /** What adding leaves under the number of the entry, and that it leaves every other number alone. */
  lemma {:induction false} AddedGet(b: Book, e: Entry, call: Call, n: string)
    requires call.Searches()
    ensures var was, now := Get(b, e.number), Get(Added(b, e, call), e.number);
      && now.Some? && now.value.number == e.number && !now.value.candidate
      && now.value.name == (if e.name != "" then e.name else if was.Some? then was.value.name else e.number)
      && now.value.presence == (if was.None? then if e.presence > 0 then 1 else 0
                                else if e.presence != -1 then e.presence else was.value.presence)
      && now.value.directory == (if was.None? then call.directory == Some(true)
                                 else if !call.fromDirectory && call.directory.Some? then call.directory.value
                                 else was.value.directory)
    ensures n != e.number ==> Get(Added(b, e, call), n) == Get(b, n)
  {
    hide IndexOf;
    var i, r := IndexOf(b, e.number), Added(b, e, call);
    if i >= 0 {
      SameNumbers(b, r, e.number);
      SameNumbers(b, r, n);
    } else {
      ConsGet(Created(e, call.directory == Some(true)), b, e.number);
      ConsGet(Created(e, call.directory == Some(true)), b, n);
    }
  }
}
