/**
  The INI configuration file reader (`ConfFile`): trimming, line
  classification, `[section]` headers and `key = value` entries, and the
  two cursors a caller uses to read the result back.

  Sections are kept newest first, and so are the entries of a section.
  Section names and keys are compared ignoring ASCII case, as `strcaseeq`
  does.  Reading the file is reduced to the lines `getline` returns (or
  the fact that the file could not be opened); every line is seen as the
  C string it is, i.e. up to its first NUL character.
 */
module Conf {
  import opened Common

  /** The C string stored in a buffer: everything before the first NUL. */
  function CStr(s: string): (r: string)
    ensures r <= s
    ensures '\0' !in r
    ensures |r| < |s| ==> s[|r|] == '\0'
  {
    if s == [] || s[0] == '\0' then [] else [s[0]] + CStr(s[1..])
  }

  /** Where the text ends once trailing whitespace after `lo` is cut. */
  function TrimEnd(s: string, lo: nat): (n: nat)
    requires lo <= |s|
    ensures lo <= n <= |s|
    ensures forall i :: n <= i < |s| ==> IsSpace(s[i])
    ensures n > lo ==> !IsSpace(s[n - 1])
    decreases |s|
  {
    if |s| == lo || !IsSpace(s[|s| - 1]) then |s| else TrimEnd(s[..|s| - 1], lo)
  }

  /** The characterisation of a trimmed string: a contiguous piece of `s`,
      neither starting nor ending with whitespace, with only whitespace
      around it. */
  predicate TrimmedPiece(s: string, i: nat, j: nat) {
    i <= j <= |s| &&
    (forall k :: 0 <= k < i ==> IsSpace(s[k])) &&
    (forall k :: j <= k < |s| ==> IsSpace(s[k])) &&
    (i < j ==> !IsSpace(s[i]) && !IsSpace(s[j - 1]))
  }

  /** `_trim`: drops leading and trailing whitespace. */
  function Trim(s: string): (r: string)
    ensures |r| <= |s|
    ensures r == [] || (!IsSpace(r[0]) && !IsSpace(r[|r| - 1]))
    ensures TrimmedPiece(s, LeadingSpace(s), LeadingSpace(s) + |r|) && r == s[LeadingSpace(s)..LeadingSpace(s) + |r|]
  {
    var i := LeadingSpace(s);
    s[i..TrimEnd(s, i)]
  }

  /** There is only one way to cut a string that way, so `Trim` is the
      piece that the characterisation describes. */
  lemma TrimUnique(s: string, i: nat, j: nat)
    requires TrimmedPiece(s, i, j)
    ensures Trim(s) == s[i..j]
  {
    var a := LeadingSpace(s);
    var b := a + |Trim(s)|;
    assert TrimmedPiece(s, a, b);
    if i < j {
      assert a == i;
      assert b == j;
    } else {
      assert a == b;
    }
  }

  /** Trimming twice changes nothing. */
  lemma TrimIdempotent(s: string)
    ensures Trim(Trim(s)) == Trim(s)
  {
    var r := Trim(s);
    assert TrimmedPiece(r, 0, |r|);
    TrimUnique(r, 0, |r|);
    assert r[0..|r|] == r;
  }

  /** ASCII lower case, as `strcasecmp` folds characters. */
  function Lower(c: char): char {
    if 'A' <= c <= 'Z' then (c as int + 32) as char else c
  }

  function LowerAll(s: string): (r: string)
    ensures |r| == |s|
    ensures forall i :: 0 <= i < |s| ==> r[i] == Lower(s[i])
  {
    if s == [] then [] else [Lower(s[0])] + LowerAll(s[1..])
  }

  /** `strcaseeq`: equality ignoring ASCII case. */
  predicate CaseEq(a: string, b: string) {
    LowerAll(a) == LowerAll(b)
  }

  /** What a trimmed line is. */
  datatype LineKind = Blank | SectionLine | ConfigLine

  /** The line classification of `parse_file`. */
  function Classify(t: string): (k: LineKind)
    ensures k == Blank <==> t == [] || t[0] == ';' || t[0] == '#'
    ensures k == SectionLine <==> t != [] && t[0] == '['
  {
    if t == [] || t[0] == ';' || t[0] == '#' then Blank
    else if t[0] == '[' then SectionLine
    else ConfigLine
  }

  /** The text of a line as the parser sees it. */
  function Entry(line: string): string {
    Trim(CStr(line))
  }

  datatype Config = Config(key: string, value: string)

  /** A section: its name, its entries newest first, and the cursor of
      `next_from_section` (the index of the entry returned last). */
  datatype Section = Section(name: string, configs: seq<Config>, cursor: Option<nat>)

  /** The reader's state: all sections, newest first, and the index of the
      current one. */
  datatype ConfFile = ConfFile(sections: seq<Section>, current: Option<nat>)

  predicate WellFormed(f: ConfFile) {
    (f.current.Some? ==> f.current.value < |f.sections|) &&
    forall i :: 0 <= i < |f.sections| ==>
      f.sections[i].cursor.Some? ==> f.sections[i].cursor.value < |f.sections[i].configs|
  }

  /** No two sections have names that differ only in case. */
  predicate DistinctNames(sections: seq<Section>) {
    forall i, j :: 0 <= i < j < |sections| ==> !CaseEq(sections[i].name, sections[j].name)
  }

  datatype Step = Step(ret: int, f: ConfFile)

  function IndexOf(s: string, c: char): (r: Option<nat>)
    ensures r.Some? ==> r.value < |s| && s[r.value] == c && c !in s[..r.value]
    ensures r.None? ==> c !in s
  {
    if s == [] then None
    else if s[0] == c then Some(0)
    else match IndexOf(s[1..], c)
      case None => None
      case Some(i) =>
        assert s[..i + 1] == [s[0]] + s[1..][..i];
        Some(i + 1)
  }

  /** The first occurrence is the only one with no occurrence before it. */
  lemma IndexOfAt(s: string, c: char, i: nat)
    requires i < |s| && s[i] == c && c !in s[..i]
    ensures IndexOf(s, c) == Some(i)
  {
    var r := IndexOf(s, c);
    assert s[..i + 1][i] == c;
  }

  /** A section header is well formed when its first ']' is its last character. */
  predicate ValidSection(t: string) {
    IndexOf(t, ']').Some? && IndexOf(t, ']').value == |t| - 1
  }

  /** The name a header `[ name ]` declares. */
  function SectionName(t: string): string
    requires t != [] && t[0] == '[' && ValidSection(t)
  {
    Trim(t[1..|t| - 1])
  }

  /**
    `_add_section` for a trimmed line that starts with '['.  A missing ']',
    or text after the first ']', is -EINVAL.  A name that matches an
    existing section, ignoring case, makes that section current again;
    otherwise a new, empty section is put at the head and made current.
  */
  function AddSection(f: ConfFile, t: string): (s: Step)
    requires WellFormed(f) && t != [] && t[0] == '['
    ensures WellFormed(s.f)
    ensures s.ret == 0 || s.ret == -EINVAL
    ensures s.ret == -EINVAL <==> !ValidSection(t)
    ensures s.ret == -EINVAL ==> s.f == f
    ensures s.ret == 0 ==> s.f.current.Some? && CaseEq(s.f.sections[s.f.current.value].name, SectionName(t))
    ensures s.ret == 0 && (exists i :: 0 <= i < |f.sections| && CaseEq(f.sections[i].name, SectionName(t))) ==>
      s.f.sections == f.sections
    ensures s.ret == 0 && (forall i :: 0 <= i < |f.sections| ==> !CaseEq(f.sections[i].name, SectionName(t))) ==>
      s.f.sections == [Section(SectionName(t), [], None)] + f.sections && s.f.current == Some(0)
    ensures DistinctNames(f.sections) ==> DistinctNames(s.f.sections)
  {
    if !ValidSection(t) then Step(-EINVAL, f)
    else
      var name := SectionName(t);
      match FirstIndex(f.sections, (x: Section) => CaseEq(x.name, name))
      case Some(i) => Step(0, f.(current := Some(i)))
      case None =>
        var sections := [Section(name, [], None)] + f.sections;
        PrependKeeps(Section(name, [], None), f.sections);
        Step(0, ConfFile(sections, Some(0)))
  }

  /** Putting a section of a new name at the head keeps the names distinct
      and the cursors in range. */
  lemma PrependKeeps(sec: Section, sections: seq<Section>)
    requires sec.cursor.None?
    ensures forall i :: 1 <= i < |[sec] + sections| ==> ([sec] + sections)[i] == sections[i - 1]
    ensures DistinctNames(sections) && (forall i :: 0 <= i < |sections| ==> !CaseEq(sections[i].name, sec.name)) ==>
      DistinctNames([sec] + sections)
  {
    var all := [sec] + sections;
    assert forall i :: 1 <= i < |all| ==> all[i] == sections[i - 1];
  }

  /** A `key = value` line is well formed when it has a '=' that is
      neither its first nor its last character. */
  predicate ValidConfig(t: string) {
    IndexOf(t, '=').Some? && 0 < IndexOf(t, '=').value < |t| - 1
  }

  /** The key and the value of a well-formed line: the trimmed text before
      and after the first '=', so that the value may itself hold '='. */
  function Split(t: string): Config
    requires ValidConfig(t)
  {
    var eq := IndexOf(t, '=').value;
    Config(Trim(t[..eq]), Trim(t[eq + 1..]))
  }

  /**
    `_add_config` for a trimmed line.  A line without '=', or with '=' at
    its start or its end, is -EINVAL; otherwise the entry is put at the
    head of the current section, which must exist.
  */
  function AddConfig(f: ConfFile, t: string): (s: Step)
    requires WellFormed(f)
    requires ValidConfig(t) ==> f.current.Some?
    ensures WellFormed(s.f)
    ensures s.ret == 0 || s.ret == -EINVAL
    ensures s.ret == -EINVAL <==> !ValidConfig(t)
    ensures s.ret == -EINVAL ==> s.f == f
    ensures s.ret == 0 ==>
      var c := f.current.value;
      s.f.current == f.current && |s.f.sections| == |f.sections| &&
      s.f.sections[c].configs == [Split(t)] + f.sections[c].configs &&
      s.f.sections[c].name == f.sections[c].name &&
      // the cursor stays on the entry it was on
      s.f.sections[c].cursor == (if f.sections[c].cursor.Some? then Some(f.sections[c].cursor.value + 1) else None) &&
      forall i :: 0 <= i < |f.sections| && i != c ==> s.f.sections[i] == f.sections[i]
  {
    if !ValidConfig(t) then Step(-EINVAL, f)
    else
      var c := f.current.value;
      var sec := f.sections[c];
      var sec' := sec.(configs := [Split(t)] + sec.configs,
                       cursor := if sec.cursor.Some? then Some(sec.cursor.value + 1) else None);
      Step(0, f.(sections := f.sections[c := sec']))
  }

  /** On a trimmed, well-formed line neither the key nor the value is empty. */
  lemma SplitNonEmpty(line: string)
    requires ValidConfig(Entry(line))
    ensures Split(Entry(line)).key != [] && Split(Entry(line)).value != []
  {
    var t := Entry(line);
    var eq := IndexOf(t, '=').value;
    assert !IsSpace(t[0]) && !IsSpace(t[|t| - 1]);
    var k := t[..eq];
    assert k[0] == t[0];
    assert LeadingSpace(k) == 0;
    assert TrimEnd(k, 0) > 0;
    var v := t[eq + 1..];
    assert v[|v| - 1] == t[|t| - 1];
    assert TrimEnd(v, LeadingSpace(v)) == |v|;
    assert LeadingSpace(v) < |v|;
  }

  /** The first line that is neither blank nor a comment is a valid
      `key = value` entry: that entry has no section to go to. */
  predicate Orphan(lines: seq<string>) {
    lines != [] &&
    match Classify(Entry(lines[0]))
    case Blank => Orphan(lines[1..])
    case SectionLine => false
    case ConfigLine => ValidConfig(Entry(lines[0]))
  }

  /** A line `parse_file` accepts: blank or a comment, a well-formed
      section header, or a well-formed `key = value` entry. */
  predicate LineOk(t: string) {
    match Classify(t)
    case Blank => true
    case SectionLine => ValidSection(t)
    case ConfigLine => ValidConfig(t)
  }

  /** One line of `parse_file`'s loop. */
  function ParseLine(f: ConfFile, line: string): (s: Step)
    requires WellFormed(f)
    requires Classify(Entry(line)) == ConfigLine && ValidConfig(Entry(line)) ==> f.current.Some?
    ensures WellFormed(s.f)
    ensures s.ret == 0 || s.ret == -EINVAL
    ensures s.ret == 0 <==> LineOk(Entry(line))
  {
    var t := Entry(line);
    match Classify(t)
    case Blank => Step(0, f)
    case SectionLine => AddSection(f, t)
    case ConfigLine => AddConfig(f, t)
  }

  /** The loop of `parse_file`: stops at the first line in error. */
  function ParseLines(f: ConfFile, lines: seq<string>): (s: Step)
    requires WellFormed(f)
    requires f.current.None? ==> !Orphan(lines)
    ensures WellFormed(s.f)
    ensures s.ret == 0 || s.ret == -EINVAL
    ensures s.ret == 0 <==> AllOk(lines)
    ensures f.current.Some? ==> s.f.current.Some?
    ensures DistinctNames(f.sections) ==> DistinctNames(s.f.sections)
    decreases |lines|
  {
    if lines == [] then Step(0, f)
    else
      var s := ParseLine(f, lines[0]);
      if s.ret < 0 then s
      else
        assert s.f.current.None? ==> f.current.None? && Classify(Entry(lines[0])) == Blank;
        AllLinesOk(lines);
        ParseLines(s.f, lines[1..])
  }

  /** Every line of the file is one `parse_file` accepts. */
  predicate AllOk(lines: seq<string>) {
    forall k :: 0 <= k < |lines| ==> LineOk(Entry(lines[k]))
  }

  /** A file's lines are all accepted exactly when its first line is and
      the rest are. */
  lemma AllLinesOk(lines: seq<string>)
    requires lines != []
    ensures AllOk(lines) <==> LineOk(Entry(lines[0])) && AllOk(lines[1..])
  {
    if LineOk(Entry(lines[0])) && AllOk(lines[1..]) {
      forall k | 0 <= k < |lines| ensures LineOk(Entry(lines[k])) {
        if k > 0 { assert lines[k] == lines[1..][k - 1]; }
      }
    }
  }

  /**
    `parse_file`.  `openOk` says whether the file could be opened, `lines`
    are the lines `getline` returns.  A file that cannot be opened is
    -EIO; a line in error stops the parse with its -EINVAL; a file without
    any section, or whose newest section has no entry, is -EINVAL.  The
    code dereferences the current section when it stores an entry, so the
    file must not have a valid entry before its first section header.
  */
  function ParseFile(lines: seq<string>, openOk: bool): (s: Step)
    requires !Orphan(lines)
    ensures s.ret == 0 || s.ret == -EIO || s.ret == -EINVAL
    ensures !openOk ==> s.ret == -EIO
    ensures s.ret == 0 ==> s.f.sections != [] && s.f.sections[0].configs != [] && s.f.current.None?
    ensures openOk && !AllOk(lines) ==> s.ret == -EINVAL
    ensures openOk && AllOk(lines) ==>
      (s.ret == 0 <==> s.f.sections != [] && s.f.sections[0].configs != [])
    ensures DistinctNames(s.f.sections)
    ensures WellFormed(s.f)
  {
    if !openOk then Step(-EIO, ConfFile([], None))
    else
      var s := ParseLines(ConfFile([], None), lines);
      if s.ret < 0 then s
      else
        var f := s.f.(current := None);
        if f.sections == [] || f.sections[0].configs == [] then Step(-EINVAL, f) else Step(0, f)
  }

  /** Inserting `y` at position `k > 0` keeps the head and inserts it at
      `k - 1` in the tail. */
  lemma InsertAfterHead<T>(xs: seq<T>, y: T, k: nat)
    requires 0 < k <= |xs|
    ensures (xs[..k] + [y] + xs[k..])[0] == xs[0]
    ensures (xs[..k] + [y] + xs[k..])[1..] == xs[1..][..k - 1] + [y] + xs[1..][k - 1..]
  {
    assert xs[..k] == [xs[0]] + xs[1..][..k - 1];
    assert xs[k..] == xs[1..][k - 1..];
  }

  /** Blank lines and comments can be added or removed anywhere without
      changing the outcome of the parse. */
  lemma {:induction false} BlankLinesIgnored(f: ConfFile, lines: seq<string>, blank: string, k: nat)
    requires WellFormed(f) && k <= |lines|
    requires Classify(Entry(blank)) == Blank
    requires f.current.None? ==> !Orphan(lines) && !Orphan(lines[..k] + [blank] + lines[k..])
    ensures ParseLines(f, lines[..k] + [blank] + lines[k..]) == ParseLines(f, lines)
    decreases k
  {
    var l' := lines[..k] + [blank] + lines[k..];
    if k == 0 {
      assert l'[0] == blank && l'[1..] == lines;
    } else {
      InsertAfterHead(lines, blank, k);
      var s := ParseLine(f, lines[0]);
      assert ParseLines(f, l') == if s.ret < 0 then s else ParseLines(s.f, l'[1..]);
      assert ParseLines(f, lines) == if s.ret < 0 then s else ParseLines(s.f, lines[1..]);
      if s.ret >= 0 {
        BlankLinesIgnored(s.f, lines[1..], blank, k - 1);
      }
    }
  }

  /** `first_section`: the newest section becomes current. */
  function FirstSection(f: ConfFile): (r: (ConfFile, string))
    requires f.sections != []
    ensures r.0 == f.(current := Some(0)) && r.1 == f.sections[0].name
  {
    (f.(current := Some(0)), f.sections[0].name)
  }

  /** `next_section`: moves to the following section, if there is one. */
  function NextSection(f: ConfFile): (r: (ConfFile, Option<string>))
    requires f.current.Some? && f.current.value < |f.sections|
    ensures f.current.value + 1 == |f.sections| ==> r == (f, None)
    ensures f.current.value + 1 < |f.sections| ==>
      r.0 == f.(current := Some(f.current.value + 1)) && r.1 == Some(f.sections[f.current.value + 1].name)
  {
    var c := f.current.value;
    if c + 1 == |f.sections| then (f, None)
    else (f.(current := Some(c + 1)), Some(f.sections[c + 1].name))
  }

  /** `first_section` followed by `k` calls of `next_section` stands on
      section `k`: the sections come out in list order. */
  function WalkSections(f: ConfFile, k: nat): (r: ConfFile)
    requires f.sections != [] && k < |f.sections|
    ensures r.sections == f.sections && r.current.Some? && r.current.value < |r.sections|
  {
    if k == 0 then FirstSection(f).0 else NextSection(WalkSections(f, k - 1)).0
  }

  lemma {:induction false} WalkSectionsInOrder(f: ConfFile, k: nat)
    requires f.sections != [] && k < |f.sections|
    ensures WalkSections(f, k) == f.(current := Some(k))
  {
    if k > 0 {
      WalkSectionsInOrder(f, k - 1);
    }
  }

  /** The index of the first entry at or after `from` whose key matches. */
  function NextMatch(configs: seq<Config>, key: string, from: nat): (r: Option<nat>)
    ensures r.Some? ==> from <= r.value < |configs| && CaseEq(configs[r.value].key, key)
    ensures r.Some? ==> forall j :: from <= j < r.value ==> !CaseEq(configs[j].key, key)
    ensures r.None? ==> forall j :: from <= j < |configs| ==> !CaseEq(configs[j].key, key)
    decreases |configs| - from
  {
    if from >= |configs| then None
    else if CaseEq(configs[from].key, key) then Some(from)
    else NextMatch(configs, key, from + 1)
  }

  datatype Lookup = Lookup(f: ConfFile, value: Option<string>)

  /**
    `next_from_section(section_name, key)`.  Without a current section the
    newest one is taken.  When the current section has another name, the
    section of that name becomes current with its cursor reset, and an
    unknown name gives NULL.  The search for the key starts after the
    cursor when the cursor's entry has that same key, and at the head of
    the section otherwise; a match moves the cursor to it.
  */
  function NextFromSection(f: ConfFile, name: string, key: string): (r: Lookup)
    requires WellFormed(f)
    ensures WellFormed(r.f)
    ensures (forall i :: 0 <= i < |f.sections| ==> !CaseEq(f.sections[i].name, name)) ==> r.value == None
    ensures r.value.Some? ==> r.f.current.Some?
    ensures r.value.Some? && r.f.current.Some? ==>
      var c := r.f.current.value;
      var sec := r.f.sections[c];
      CaseEq(sec.name, name) && sec.cursor.Some? &&
      CaseEq(sec.configs[sec.cursor.value].key, key) && r.value.value == sec.configs[sec.cursor.value].value
  {
    var f0 := if f.current.None? && f.sections != [] then f.(current := Some(0)) else f;
    if f0.current.None? then Lookup(f0, None)
    else
      var c0 := f0.current.value;
      var found :=
        if CaseEq(name, f0.sections[c0].name) then Some(c0)
        else FirstIndex(f0.sections, (x: Section) => CaseEq(x.name, name));
      if found.None? then Lookup(f0, None)
      else
        var c := found.value;
        // Moving to another section forgets that section's cursor.
        var sec := if c == c0 then f0.sections[c] else f0.sections[c].(cursor := None);
        var r := SearchSection(sec, key);
        Lookup(f0.(current := Some(c), sections := f0.sections[c := r.0]), r.1)
  }

  /** The search inside the current section: it starts after the cursor
      when the cursor's entry has the key, at the head of the section
      otherwise, and a match moves the cursor to it. */
  function SearchSection(sec: Section, key: string): (r: (Section, Option<string>))
    requires sec.cursor.Some? ==> sec.cursor.value < |sec.configs|
    ensures r.0.name == sec.name && r.0.configs == sec.configs
    ensures r.0.cursor.Some? ==> r.0.cursor.value < |r.0.configs|
    ensures r.1.Some? ==>
      r.0.cursor.Some? && CaseEq(sec.configs[r.0.cursor.value].key, key) &&
      r.1.value == sec.configs[r.0.cursor.value].value
  {
    var from := if sec.cursor.None? || !CaseEq(sec.configs[sec.cursor.value].key, key) then 0 else sec.cursor.value + 1;
    match NextMatch(sec.configs, key, from)
    case None => (sec, None)
    case Some(j) => (sec.(cursor := Some(j)), Some(sec.configs[j].value))
  }

  /** A text that the parser keeps as it is: not empty, no NUL, no
      whitespace at either end. */
  predicate Clean(s: string) {
    s != [] && '\0' !in s && !IsSpace(s[0]) && !IsSpace(s[|s| - 1])
  }

  lemma CStrNoNul(s: string)
    requires '\0' !in s
    ensures CStr(s) == s
  {
    if s != [] {
      assert '\0' !in s[1..];
      CStrNoNul(s[1..]);
    }
  }

  lemma CleanKept(s: string)
    requires Clean(s)
    ensures Entry(s) == s && Trim(s) == s
  {
    CStrNoNul(s);
    TrimUnique(s, 0, |s|);
  }

  /** The header line `[name]` declares `name`. */
  lemma HeaderLine(name: string)
    requires Clean(name) && ']' !in name
    ensures
      var t := "[" + name + "]";
      Entry(t) == t && Classify(t) == SectionLine && ValidSection(t) && SectionName(t) == name
  {
    var t := "[" + name + "]";
    assert Clean(t);
    CleanKept(t);
    assert t[..|t| - 1] == "[" + name;
    IndexOfAt(t, ']', |t| - 1);
    assert t[1..|t| - 1] == name;
    CleanKept(name);
  }

  /** The line `key=value` declares that entry, when the key does not
      start like a header or a comment. */
  lemma EntryLine(key: string, value: string)
    requires Clean(key) && Clean(value) && '=' !in key && key[0] !in "[;#"
    ensures
      var t := key + "=" + value;
      Entry(t) == t && Classify(t) == ConfigLine && ValidConfig(t) && Split(t) == Config(key, value)
  {
    EntryLineKept(key, value);
    EntryLineSplit(key, value);
  }

  lemma EntryLineKept(key: string, value: string)
    requires Clean(key) && Clean(value) && key[0] !in "[;#"
    ensures var t := key + "=" + value; Entry(t) == t && Classify(t) == ConfigLine
  {
    var t := key + "=" + value;
    assert t[0] == key[0] && t[|t| - 1] == value[|value| - 1];
    CleanKept(t);
  }

  lemma EntryLineSplit(key: string, value: string)
    requires Clean(key) && Clean(value) && '=' !in key
    ensures var t := key + "=" + value; ValidConfig(t) && Split(t) == Config(key, value)
  {
    var t := key + "=" + value;
    assert t[..|key|] == key;
    IndexOfAt(t, '=', |key|);
    assert t[|key| + 1..] == value;
    CleanKept(key);
    CleanKept(value);
  }

  /** A file of one header and one entry parses to that section with that
      entry, and reads back through `next_from_section` under any
      spelling of the section name and the key that differs only in case. */
  lemma OneEntryRoundTrip(name: string, key: string, value: string, name': string, key': string)
    requires Clean(name) && ']' !in name && Clean(key) && Clean(value) && '=' !in key && key[0] !in "[;#"
    requires CaseEq(name', name) && CaseEq(key', key)
    ensures
      var p := ParseFile(["[" + name + "]", key + "=" + value], true);
      p.ret == 0 && p.f == ConfFile([Section(name, [Config(key, value)], None)], None) &&
      NextFromSection(p.f, name', key').value == Some(value)
  {
    OneEntryParses(name, key, value);
    OneEntryLookup(ConfFile([Section(name, [Config(key, value)], None)], None), name', key');
  }

  lemma OneEntryParses(name: string, key: string, value: string)
    requires Clean(name) && ']' !in name && Clean(key) && Clean(value) && '=' !in key && key[0] !in "[;#"
    ensures ParseFile(["[" + name + "]", key + "=" + value], true) ==
      Step(0, ConfFile([Section(name, [Config(key, value)], None)], None))
  {
    var l1, l2 := "[" + name + "]", key + "=" + value;
    var f1 := ConfFile([Section(name, [], None)], Some(0));
    var f2 := ConfFile([Section(name, [Config(key, value)], None)], Some(0));
    HeaderParses(name);
    EntryParses(name, key, value);
    assert ParseLines(f1, [l2]) == Step(0, f2) by { assert [l2][1..] == []; }
    assert [l1, l2][1..] == [l2];
  }

  lemma HeaderParses(name: string)
    requires Clean(name) && ']' !in name
    ensures ParseLine(ConfFile([], None), "[" + name + "]") == Step(0, ConfFile([Section(name, [], None)], Some(0)))
  {
    HeaderLine(name);
  }

  lemma EntryParses(name: string, key: string, value: string)
    requires Clean(key) && Clean(value) && '=' !in key && key[0] !in "[;#"
    ensures ParseLine(ConfFile([Section(name, [], None)], Some(0)), key + "=" + value) ==
      Step(0, ConfFile([Section(name, [Config(key, value)], None)], Some(0)))
  {
    EntryLine(key, value);
    AddToNewSection(name, key + "=" + value);
  }

  lemma AddToNewSection(name: string, t: string)
    requires ValidConfig(t)
    ensures AddConfig(ConfFile([Section(name, [], None)], Some(0)), t) ==
      Step(0, ConfFile([Section(name, [Split(t)], None)], Some(0)))
  {
    var sec := Section(name, [Split(t)], None);
    assert [Split(t)] + [] == [Split(t)];
    assert [Section(name, [], None)][0 := sec] == [sec];
  }

  lemma OneEntryLookup(f: ConfFile, name': string, key': string)
    requires |f.sections| == 1 && |f.sections[0].configs| == 1 && f.sections[0].cursor.None? && f.current.None?
    requires CaseEq(name', f.sections[0].name) && CaseEq(key', f.sections[0].configs[0].key)
    ensures NextFromSection(f, name', key').value == Some(f.sections[0].configs[0].value)
  {
    assert NextMatch(f.sections[0].configs, key', 0) == Some(0);
  }

  /** A lookup from a section whose cursor is not on an entry with that
      key returns the first match of the section; a lookup whose cursor is
      on such an entry returns the next match after it.  So repeated calls
      step through the matching entries in list order, and then return
      NULL. */
  lemma LookupSteps(f: ConfFile, key: string)
    requires WellFormed(f) && f.current.Some?
    ensures
      var c := f.current.value;
      var sec := f.sections[c];
      var from := if sec.cursor.None? || !CaseEq(sec.configs[sec.cursor.value].key, key) then 0 else sec.cursor.value + 1;
      var r := NextFromSection(f, sec.name, key);
      r.f.current == Some(c) &&
      (match NextMatch(sec.configs, key, from)
       case None => r.value == None && r.f == f
       case Some(j) => r.value == Some(sec.configs[j].value) && r.f.sections[c].cursor == Some(j))
  {
    var c := f.current.value;
    assert f.sections[c := f.sections[c]] == f.sections;
    assert CaseEq(f.sections[c].name, f.sections[c].name);
  }

  /** `parse_file` leaves no current section, so the first lookup after it
      behaves as a lookup from the newest section, the head of the list. */
  lemma FirstLookupTakesNewest(f: ConfFile, name: string, key: string)
    requires WellFormed(f) && f.current.None? && f.sections != []
    ensures NextFromSection(f, name, key) == NextFromSection(f.(current := Some(0)), name, key)
  {
  }

  /** The first lookup after `parse_file`, with no current section and the
      newest section's cursor unset, returns the first entry with the key in
      the section of that name, or NULL when there is none, and makes that
      section current. */
  lemma {:induction false} FirstLookupFindsFirstMatch(f: ConfFile, name: string, key: string, i: nat)
    requires WellFormed(f) && f.current.None? && i < |f.sections| && f.sections[0].cursor.None?
    requires DistinctNames(f.sections) && CaseEq(f.sections[i].name, name)
    ensures
      var r := NextFromSection(f, name, key);
      r.f.current == Some(i) &&
      (match NextMatch(f.sections[i].configs, key, 0)
       case None => r.value == None
       case Some(j) => r.value == Some(f.sections[i].configs[j].value))
  {
    var f0 := f.(current := Some(0));
    FirstLookupTakesNewest(f, name, key);
    if i == 0 {
      LookupSteps(f0, key);
      assert NextFromSection(f0, name, key) == NextFromSection(f0, f.sections[0].name, key);
    } else {
      assert !CaseEq(f.sections[0].name, f.sections[i].name);
      SwitchSectionRestarts(f0, name, key, i);
    }
  }

  /** Asking for another section moves the cursor there and restarts the
      search at the head of that section. */
  lemma SwitchSectionRestarts(f: ConfFile, name: string, key: string, i: nat)
    requires WellFormed(f) && f.current.Some? && i < |f.sections|
    requires DistinctNames(f.sections) && CaseEq(f.sections[i].name, name)
    requires !CaseEq(name, f.sections[f.current.value].name)
    ensures
      var r := NextFromSection(f, name, key);
      r.f.current == Some(i) &&
      (match NextMatch(f.sections[i].configs, key, 0)
       case None => r.value == None
       case Some(j) => r.value == Some(f.sections[i].configs[j].value))
  {
    var p := (x: Section) => CaseEq(x.name, name);
    var found := FirstIndex(f.sections, p);
    assert p(f.sections[i]);
    assert found == Some(i);
  }
}
