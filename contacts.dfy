/**
 * The address book of contacts.py: a module-level list of records, each one
 * the string "name | address | phone", changed in place by the Add, Update,
 * Clear All and Load buttons, read by Save, by selecting a row and by Search.
 * Entry widgets become string parameters; dialogs become explicit arguments.
 */
module Contacts {
  import opened Options

  /** The field separator of a record. */
  const SEP: string := " | "

  /** The column names written as the first row of a saved file. */
  const HEADER: seq<string> := ["Name", "Address", "Phone"]

  // ---------------------------------------------------------------------
  // str.strip() and str.lower()
  // ---------------------------------------------------------------------

  /** The characters Python's str.isspace() accepts, which str.strip() removes. */
  predicate IsSpace(c: char) {
    c in {' ', '\t', '\n', '\r', '\U{B}', '\U{C}', '\U{1C}', '\U{1D}', '\U{1E}', '\U{1F}',
          '\U{85}', '\U{A0}', '\U{1680}', '\U{2028}', '\U{2029}', '\U{202F}', '\U{205F}', '\U{3000}'}
    || ('\U{2000}' <= c <= '\U{200A}')
  }

  /** The length of the leading run of whitespace of s. */
  function LeadingSpaces(s: string): (n: nat)
    ensures n <= |s|
    ensures forall k :: 0 <= k < n ==> IsSpace(s[k])
    ensures n < |s| ==> !IsSpace(s[n])
  {
    if s != [] && IsSpace(s[0]) then
      var m := LeadingSpaces(s[1..]);
      assert forall k :: 1 <= k < 1 + m ==> s[k] == s[1..][k - 1];
      1 + m
    else 0
  }

  /** The length of the trailing run of whitespace of s. */
  function TrailingSpaces(s: string): (n: nat)
    ensures n <= |s|
    ensures forall k :: |s| - n <= k < |s| ==> IsSpace(s[k])
    ensures n < |s| ==> !IsSpace(s[|s| - n - 1])
  {
    if s != [] && IsSpace(s[|s| - 1]) then
      var m := TrailingSpaces(s[..|s| - 1]);
      assert forall k :: 0 <= k < |s| - 1 ==> s[..|s| - 1][k] == s[k];
      1 + m
    else 0
  }

  /** Where the stripped text ends in s: the trailing run is measured after the leading one. */
  function StripEnd(s: string): (e: nat)
    ensures LeadingSpaces(s) <= e <= |s|
  {
    |s| - TrailingSpaces(s[LeadingSpaces(s)..])
  }

  /** str.strip() with no argument. */
  function Strip(s: string): string {
    s[LeadingSpaces(s)..StripEnd(s)]
  }

  /**
   * What strip() promises: everything cut off on either side is whitespace,
   * and the text that is left neither starts nor ends with whitespace.
   */
  lemma StripSpec(s: string)
    ensures forall k :: 0 <= k < LeadingSpaces(s) ==> IsSpace(s[k])
    ensures forall k :: StripEnd(s) <= k < |s| ==> IsSpace(s[k])
    ensures Strip(s) == [] || (!IsSpace(Strip(s)[0]) && !IsSpace(Strip(s)[|Strip(s)| - 1]))
  {
    var a := LeadingSpaces(s);
    var t := s[a..];
    var n := TrailingSpaces(t);
    assert StripEnd(s) == a + |t| - n;
    forall k | StripEnd(s) <= k < |s| ensures IsSpace(s[k]) {
      assert s[k] == t[k - a];
    }
    if Strip(s) != [] {
      assert Strip(s)[0] == s[a];
      assert Strip(s)[|Strip(s)| - 1] == t[|t| - n - 1];
    }
  }

  /** Stripping twice is stripping once. */
  lemma StripIdempotent(s: string)
    ensures Strip(Strip(s)) == Strip(s)
  {
    StripSpec(s);
    var t := Strip(s);
    assert LeadingSpaces(t) == 0;
    assert t[0..] == t;
    assert StripEnd(t) == |t|;
  }

  /** The case mapping of str.lower() on ASCII letters. */
  function LowerChar(c: char): char {
    if 'A' <= c <= 'Z' then (c as int + 32) as char else c
  }

  /** str.lower(), character by character. */
  function Lower(s: string): (r: string)
    ensures |r| == |s|
    ensures forall i :: 0 <= i < |s| ==> r[i] == LowerChar(s[i])
  {
    if s == [] then [] else [LowerChar(s[0])] + Lower(s[1..])
  }

  // ---------------------------------------------------------------------
  // The substring test of `query in contact.lower()`
  // ---------------------------------------------------------------------

  /** sub occurs in s starting at position i. */
  predicate OccursAt(s: string, sub: string, i: int) {
    0 <= i && i + |sub| <= |s| && s[i..i + |sub|] == sub
  }

  /** Python's `sub in s` on strings. */
  predicate Contains(s: string, sub: string) {
    exists i :: 0 <= i <= |s| && OccursAt(s, sub, i)
  }

  // ---------------------------------------------------------------------
  // Building a record and splitting it on " | "
  // ---------------------------------------------------------------------

  /** The f-string "{name} | {address} | {phone}". */
  function Format(name: string, address: string, phone: string): string {
    name + SEP + address + SEP + phone
  }

  /** The position of the leftmost occurrence of sep in s, as str.split scans for it. */
  function Find(s: string, sep: string): (r: Option<nat>)
    requires sep != []
    ensures r.Some? ==> OccursAt(s, sep, r.value)
    ensures r.Some? ==> forall k :: 0 <= k < r.value ==> !OccursAt(s, sep, k)
    ensures r.None? ==> !Contains(s, sep)
  {
    if |s| < |sep| then
      assert forall k :: !OccursAt(s, sep, k);
      None
    else if s[..|sep|] == sep then
      Some(0)
    else
      match Find(s[1..], sep)
      case None =>
        assert forall k :: OccursAt(s, sep, k) && k > 0 ==> OccursAt(s[1..], sep, k - 1);
        None
      case Some(i) =>
        assert forall k :: 0 < k <= i ==> (OccursAt(s, sep, k) ==> OccursAt(s[1..], sep, k - 1));
        Some(i + 1)
  }

  /** The pieces joined back with sep in between: the inverse of Split. */
  function Join(parts: seq<string>, sep: string): string {
    if parts == [] then [] else if |parts| == 1 then parts[0] else parts[0] + sep + Join(parts[1..], sep)
  }

  /**
   * str.split(sep) for a non-empty separator: the pieces between the
   * leftmost non-overlapping occurrences of sep. Joining the pieces with sep
   * gives s back, and no piece contains sep.
   */
  function Split(s: string, sep: string): (r: seq<string>)
    requires sep != []
    ensures |r| >= 1
    ensures Join(r, sep) == s
    ensures forall k :: 0 <= k < |r| ==> !Contains(r[k], sep)
    decreases |s|
  {
    match Find(s, sep)
    case None => [s]
    case Some(i) =>
      var rest := Split(s[i + |sep|..], sep);
      CutAtFirst(s, sep, i);
      [s[..i]] + rest
  }

  /** Cutting s at the leftmost occurrence of sep: the text before it holds no sep. */
  lemma CutAtFirst(s: string, sep: string, i: nat)
    requires sep != [] && OccursAt(s, sep, i)
    requires forall k :: 0 <= k < i ==> !OccursAt(s, sep, k)
    ensures !Contains(s[..i], sep)
    ensures s == s[..i] + sep + s[i + |sep|..]
  {
    forall k | 0 <= k <= i ensures !OccursAt(s[..i], sep, k) {
      if k + |sep| <= i {
        assert !OccursAt(s, sep, k);
        assert s[..i][k..k + |sep|] == s[k..k + |sep|];
      }
    }
  }

  /** s has no '|' character in it. */
  predicate NoBar(s: string) {
    forall i :: 0 <= i < |s| ==> s[i] != '|'
  }

  /** The leftmost " | " in a + " | " + rest is the one right after a, when a has no '|'. */
  lemma FindAfterField(a: string, rest: string)
    requires NoBar(a)
    ensures Find(a + SEP + rest, SEP) == Some(|a|)
  {
    var s := a + SEP + rest;
    assert |SEP| == 3 && SEP[0] == ' ' && SEP[1] == '|';
    assert s[|a|..|a| + 3] == SEP;
    assert OccursAt(s, SEP, |a|);
    forall k | 0 <= k < |a| ensures !OccursAt(s, SEP, k) {
      if k + 1 < |a| {
        assert s[k + 1] == a[k + 1];
      } else {
        assert s[k + 1] == SEP[0];
      }
      assert s[k + 1] != '|';
      assert s[k..k + 3][1] == s[k + 1];
    }
  }

  /** A field without '|' contains no " | ". */
  lemma NoBarNoSep(a: string)
    requires NoBar(a)
    ensures !Contains(a, SEP)
  {
    assert |SEP| == 3 && SEP[1] == '|';
    forall i | 0 <= i <= |a| ensures !OccursAt(a, SEP, i) {
      if i + 3 <= |a| {
        assert a[i..i + 3][1] == a[i + 1];
      }
    }
  }

  /**
   * The round trip save_contacts and on_select rely on: splitting a
   * formatted record on " | " gives back its three fields, provided no field
   * contains '|'.
   */
  lemma {:induction false} SplitFormat(name: string, address: string, phone: string)
    requires NoBar(name) && NoBar(address) && NoBar(phone)
    ensures Split(Format(name, address, phone), SEP) == [name, address, phone]
  {
    var s := Format(name, address, phone);
    var tail := address + SEP + phone;
    assert s == name + SEP + tail;
    FindAfterField(name, tail);
    assert s[|name| + 3..] == tail;
    assert s[..|name|] == name;
    FindAfterField(address, phone);
    assert tail[|address| + 3..] == phone;
    assert tail[..|address|] == address;
    NoBarNoSep(phone);
    assert Split(phone, SEP) == [phone];
  }

  /** Two occurrences of sep that do not overlap split s into at least three pieces. */
  lemma {:induction false} SplitTwoOccurrences(s: string, sep: string, p: nat, q: nat)
    requires sep != []
    requires OccursAt(s, sep, p) && OccursAt(s, sep, q) && p + |sep| <= q
    ensures |Split(s, sep)| >= 3
  {
    var f := Find(s, sep);
    assert f.Some? && f.value <= p;
    var t := s[f.value + |sep|..];
    assert OccursAt(t, sep, q - f.value - |sep|) by {
      assert t[q - f.value - |sep|..q - f.value] == s[q..q + |sep|];
    }
    assert |Split(s, sep)| == 1 + |Split(t, sep)|;
    var g := Find(t, sep);
    assert g.Some?;
    assert |Split(t, sep)| == 1 + |Split(t[g.value + |sep|..], sep)|;
  }

  /**
   * Whatever the fields hold, a formatted record splits into at least three
   * pieces, so on_select's reads of pieces 0, 1 and 2 never fail on a record
   * that add, update or load built.
   */
  lemma SplitFormatHasThreePieces(name: string, address: string, phone: string)
    ensures |Split(Format(name, address, phone), SEP)| >= 3
  {
    var s := Format(name, address, phone);
    var p := |name|;
    var q := |name| + 3 + |address|;
    assert s[p..p + 3] == SEP;
    assert s[q..q + 3] == SEP;
    SplitTwoOccurrences(s, SEP, p, q);
  }

  // ---------------------------------------------------------------------
  // Validation, search filter, save and load as functions on values
  // ---------------------------------------------------------------------

  /**
   * The check add_contact and update_contact share: the stripped fields
   * formatted into a record, or None (the "Input Error" warning) when the
   * stripped name or phone is empty.
   */
  function BuildRecord(name: string, address: string, phone: string): (r: Option<string>)
    ensures r.None? <==> Strip(name) == [] || Strip(phone) == []
  {
    if Strip(name) == [] || Strip(phone) == [] then None
    else Some(Format(Strip(name), Strip(address), Strip(phone)))
  }

  /**
   * A record that passed validation splits back into the stripped fields it
   * was built from, when the entries hold no '|'.
   */
  lemma BuildRecordSplits(name: string, address: string, phone: string)
    requires NoBar(name) && NoBar(address) && NoBar(phone)
    ensures BuildRecord(name, address, phone).Some? ==>
              Split(BuildRecord(name, address, phone).value, SEP) == [Strip(name), Strip(address), Strip(phone)]
  {
    StripNoBar(name);
    StripNoBar(address);
    StripNoBar(phone);
    SplitFormat(Strip(name), Strip(address), Strip(phone));
  }

  /** Stripping cannot introduce a '|'. */
  lemma StripNoBar(s: string)
    requires NoBar(s)
    ensures NoBar(Strip(s))
  {
    forall k | 0 <= k < |Strip(s)| ensures Strip(s)[k] != '|' {
      assert Strip(s)[k] == s[LeadingSpaces(s) + k];
    }
  }

  /** The record matches the (already stripped and lowered) query, case-insensitively. */
  predicate Matches(contact: string, query: string) {
    Contains(Lower(contact), query)
  }

  /** The records of cs that match query, in their original order. */
  function Filter(cs: seq<string>, query: string): seq<string> {
    if cs == [] then []
    else Filter(cs[..|cs| - 1], query) + (if Matches(cs[|cs| - 1], query) then [cs[|cs| - 1]] else [])
  }

  /** Filtering distributes over concatenation, so the result keeps the original order. */
  lemma {:induction false} FilterAppend(a: seq<string>, b: seq<string>, query: string)
    ensures Filter(a + b, query) == Filter(a, query) + Filter(b, query)
    decreases |b|
  {
    if b == [] {
      assert a + b == a;
    } else {
      var b' := b[..|b| - 1];
      assert (a + b)[..|a + b| - 1] == a + b';
      FilterAppend(a, b', query);
    }
  }

  /** A record is in the search result exactly when it is in the list and matches. */
  lemma {:induction false} FilterMembers(cs: seq<string>, query: string, c: string)
    ensures c in Filter(cs, query) <==> c in cs && Matches(c, query)
  {
    if cs != [] {
      var init := cs[..|cs| - 1];
      FilterMembers(init, query, c);
      assert cs == init + [cs[|cs| - 1]];
    }
  }

  /** Filtering never lengthens the list. */
  lemma {:induction false} FilterShorter(cs: seq<string>, query: string)
    ensures |Filter(cs, query)| <= |cs|
  {
    if cs != [] {
      FilterShorter(cs[..|cs| - 1], query);
    }
  }

  /** When every record matches, the search returns the whole list. */
  lemma {:induction false} FilterAllMatch(cs: seq<string>, query: string)
    requires forall c :: c in cs ==> Matches(c, query)
    ensures Filter(cs, query) == cs
  {
    if cs != [] {
      var init := cs[..|cs| - 1];
      FilterAllMatch(init, query);
      assert cs == init + [cs[|cs| - 1]];
    }
  }

  /** The query search_contacts uses: the entry stripped, then lowered. */
  function SearchQuery(entry: string): string {
    Lower(Strip(entry))
  }

  /** An empty (or all-blank) search entry lists every record. */
  lemma EmptyQueryMatchesAll(cs: seq<string>, entry: string)
    requires Strip(entry) == []
    ensures Filter(cs, SearchQuery(entry)) == cs
  {
    forall c | c in cs ensures Matches(c, SearchQuery(entry)) {
      assert OccursAt(Lower(c), [], 0);
    }
    FilterAllMatch(cs, SearchQuery(entry));
  }

  /** One CSV row as csv.DictReader hands it over: the Name, Address and Phone columns. */
  datatype Row = Row(name: string, address: string, phone: string)

  /** The records load_contacts builds, one per row, in row order. */
  function FormatRows(rows: seq<Row>): (r: seq<string>)
    ensures |r| == |rows|
  {
    if rows == [] then []
    else FormatRows(rows[..|rows| - 1]) + [Format(rows[|rows| - 1].name, rows[|rows| - 1].address, rows[|rows| - 1].phone)]
  }

  /** Loading yields one record per row and record k is row k formatted. */
  lemma {:induction false} FormatRowsAt(rows: seq<Row>, k: nat)
    requires k < |rows|
    ensures FormatRows(rows)[k] == Format(rows[k].name, rows[k].address, rows[k].phone)
  {
    if k < |rows| - 1 {
      FormatRowsAt(rows[..|rows| - 1], k);
    } else if |rows| > 1 {
      FormatRowsAt(rows[..|rows| - 1], 0);
    }
  }

  /** The CSV rows save_contacts writes after the header: each record split on " | ". */
  function SplitRecords(cs: seq<string>): (r: seq<seq<string>>)
    ensures |r| == |cs|
  {
    if cs == [] then [] else SplitRecords(cs[..|cs| - 1]) + [Split(cs[|cs| - 1], SEP)]
  }

  /** A row's fields as the list csv.writer receives. */
  function Columns(row: Row): seq<string> {
    [row.name, row.address, row.phone]
  }

  /** Rows without '|' in any field. */
  predicate BarFree(rows: seq<Row>) {
    forall k :: 0 <= k < |rows| ==> NoBar(rows[k].name) && NoBar(rows[k].address) && NoBar(rows[k].phone)
  }

  /** The rows as the lists of columns csv.writer receives. */
  function ColumnsOf(rows: seq<Row>): seq<seq<string>> {
    if rows == [] then [] else ColumnsOf(rows[..|rows| - 1]) + [Columns(rows[|rows| - 1])]
  }

  /**
   * Loading a file and saving it again writes the same rows back, in the
   * same order, when no field contains '|'.
   */
  lemma {:induction false} LoadThenSave(rows: seq<Row>)
    requires BarFree(rows)
    ensures SplitRecords(FormatRows(rows)) == ColumnsOf(rows)
  {
    if rows != [] {
      var init := rows[..|rows| - 1];
      var last := rows[|rows| - 1];
      assert BarFree(init) by {
        forall k | 0 <= k < |init| ensures NoBar(init[k].name) && NoBar(init[k].address) && NoBar(init[k].phone) {
          assert init[k] == rows[k];
        }
      }
      LoadThenSave(init);
      var record := Format(last.name, last.address, last.phone);
      var records := FormatRows(rows);
      assert records == FormatRows(init) + [record];
      assert records[..|records| - 1] == FormatRows(init);
      assert SplitRecords(records) == SplitRecords(FormatRows(init)) + [Split(record, SEP)];
      SplitFormat(last.name, last.address, last.phone);
    }
  }

  /** What on_select puts into the three entries, or None for its IndexError. */
  function SelectFields(record: string): (r: Option<Row>) {
    var pieces := Split(record, SEP);
    if |pieces| < 3 then None else Some(Row(pieces[0], pieces[1], pieces[2]))
  }

  /** Selecting a record that format built never fails, and gives back its fields when they hold no '|'. */
  lemma SelectFormatted(name: string, address: string, phone: string)
    ensures SelectFields(Format(name, address, phone)).Some?
    ensures NoBar(name) && NoBar(address) && NoBar(phone) ==>
              SelectFields(Format(name, address, phone)) == Some(Row(name, address, phone))
  {
    SplitFormatHasThreePieces(name, address, phone);
    if NoBar(name) && NoBar(address) && NoBar(phone) {
      SplitFormat(name, address, phone);
    }
  }

  // ---------------------------------------------------------------------
  // The contacts list, changed in place by the GUI callbacks
  // ---------------------------------------------------------------------

  class ContactBook {
    /** The module-level `contacts` list. */
    var contacts: seq<string>

    /**
     * Every record splits into at least three pieces on " | ", as every
     * record that add, update and load build does, so selecting it fills
     * the three entries.
     */
    ghost predicate Valid()
      reads this
    {
      forall c :: c in contacts ==> |Split(c, SEP)| >= 3
    }

    constructor ()
      ensures contacts == []
      ensures Valid()
    {
      contacts := [];
    }

    /**
     * add_contact: appends the formatted record of the stripped fields, or
     * leaves the list as it was when the stripped name or phone is empty.
     */
    method AddContact(name: string, address: string, phone: string) returns (added: bool)
      requires Valid()
      modifies this
      ensures Valid()
      ensures added <==> Strip(name) != [] && Strip(phone) != []
      ensures added ==> contacts == old(contacts) + [Format(Strip(name), Strip(address), Strip(phone))]
      ensures !added ==> contacts == old(contacts)
    {
      var record := BuildRecord(name, address, phone);
      if record.None? {
        return false;
      }
      SplitFormatHasThreePieces(Strip(name), Strip(address), Strip(phone));
      contacts := contacts + [record.value];
      added := true;
    }

    /**
     * update_contact: with a selected index and valid fields, replaces the
     * record at that index and nothing else; otherwise changes nothing.
     */
    method UpdateContact(selection: Option<nat>, name: string, address: string, phone: string)
      returns (updated: bool)
      requires Valid()
      requires selection.Some? ==> selection.value < |contacts|
      modifies this
      ensures Valid()
      ensures updated <==> selection.Some? && Strip(name) != [] && Strip(phone) != []
      ensures updated ==> contacts == old(contacts)[selection.value := Format(Strip(name), Strip(address), Strip(phone))]
      ensures !updated ==> contacts == old(contacts)
    {
      if selection.None? {
        return false;
      }
      var record := BuildRecord(name, address, phone);
      if record.None? {
        return false;
      }
      SplitFormatHasThreePieces(Strip(name), Strip(address), Strip(phone));
      contacts := contacts[selection.value := record.value];
      updated := true;
    }

    /** clear_contacts: empties the list when the confirmation dialog says yes. */
    method ClearContacts(confirmed: bool)
      requires Valid()
      modifies this
      ensures Valid()
      ensures contacts == if confirmed then [] else old(contacts)
    {
      if confirmed {
        contacts := [];
      }
    }

    /**
     * load_contacts: when a file was chosen, replaces the list by one
     * formatted record per row, in row order; otherwise changes nothing.
     */
    method LoadContacts(file: Option<seq<Row>>)
      requires Valid()
      modifies this
      ensures Valid()
      ensures contacts == if file.Some? then FormatRows(file.value) else old(contacts)
    {
      if file.None? {
        return;
      }
      var rows := file.value;
      contacts := [];
      var i := 0;
      while i < |rows|
        invariant 0 <= i <= |rows|
        invariant contacts == FormatRows(rows[..i])
        invariant Valid()
      {
        assert rows[..i + 1][..i] == rows[..i];
        SplitFormatHasThreePieces(rows[i].name, rows[i].address, rows[i].phone);
        contacts := contacts + [Format(rows[i].name, rows[i].address, rows[i].phone)];
        i := i + 1;
      }
      assert rows[..i] == rows;
    }

    /**
     * save_contacts: when a file was chosen, the CSV rows written to it: the
     * header, then every record split on " | ". The list is not changed.
     */
    method SaveContacts(chosen: bool) returns (written: Option<seq<seq<string>>>)
      ensures chosen ==> written == Some([HEADER] + SplitRecords(contacts))
      ensures !chosen ==> written == None
    {
      if !chosen {
        return None;
      }
      var out := [HEADER];
      var i := 0;
      while i < |contacts|
        invariant 0 <= i <= |contacts|
        invariant out == [HEADER] + SplitRecords(contacts[..i])
      {
        assert contacts[..i + 1][..i] == contacts[..i];
        out := out + [Split(contacts[i], SEP)];
        i := i + 1;
      }
      assert contacts[..i] == contacts;
      written := Some(out);
    }

    /**
     * search_contacts: the records whose lower-cased form contains the
     * stripped, lower-cased entry, in list order. The list is not changed.
     */
    method SearchContacts(entry: string) returns (results: seq<string>)
      ensures results == Filter(contacts, SearchQuery(entry))
      ensures forall c :: c in results <==> c in contacts && Matches(c, SearchQuery(entry))
    {
      var query := Lower(Strip(entry));
      results := [];
      var i := 0;
      while i < |contacts|
        invariant 0 <= i <= |contacts|
        invariant results == Filter(contacts[..i], query)
      {
        assert contacts[..i + 1][..i] == contacts[..i];
        if Contains(Lower(contacts[i]), query) {
          results := results + [contacts[i]];
        }
        i := i + 1;
      }
      assert contacts[..i] == contacts;
      forall c ensures c in results <==> c in contacts && Matches(c, query) {
        FilterMembers(contacts, query, c);
      }
    }

    /**
     * on_select: the three fields split out of the selected record, None
     * when nothing is selected, and an IndexError when the record has fewer
     * than three pieces, which no record of a valid book has.
     */
    method OnSelect(selection: Option<nat>) returns (fields: Option<Row>, indexError: bool)
      requires selection.Some? ==> selection.value < |contacts|
      ensures selection.None? ==> fields == None && !indexError
      ensures selection.Some? ==> (indexError <==> SelectFields(contacts[selection.value]).None?)
      ensures selection.Some? ==> fields == SelectFields(contacts[selection.value])
      ensures Valid() ==> !indexError
    {
      if selection.None? {
        return None, false;
      }
      var selected := Split(contacts[selection.value], SEP);
      if |selected| < 3 {
        return None, true;
      }
      fields, indexError := Some(Row(selected[0], selected[1], selected[2])), false;
    }
  }
}
