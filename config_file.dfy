/**
  `ConfigFile`: the reader of `.git/config`-style files. Each line is stripped; blank
  lines and `#` comments are skipped; a `[name]` or `[type "name"]` header opens a new
  section and closes the one before; a `word = value` line sets an option of the open
  section, and option lines before the first header are dropped. The three patterns of
  the original are line recognisers anchored at the start of the stripped line, with
  the pattern language's greedy matching written out.
*/
module ConfigFile {
  import opened Wrappers
  import opened Text

  datatype Section = Section(sectionType: Option<string>, name: string, options: map<string, string>)

  /** The end of the longest run of characters satisfying `p` that starts at index `i` of `s`. */
  function Span(s: string, i: nat, p: char -> bool): (k: nat)
    requires i <= |s|
    ensures i <= k <= |s|
    ensures forall j :: i <= j < k ==> p(s[j])
    ensures k < |s| ==> !p(s[k])
    decreases |s| - i
  {
    if i == |s| || !p(s[i]) then i else Span(s, i + 1, p)
  }

  /** A run that ends where the class stops is the greedy run. */
  lemma SpanIs(s: string, i: nat, p: char -> bool, k: nat)
    requires i <= k <= |s| && (forall j :: i <= j < k ==> p(s[j])) && (k < |s| ==> !p(s[k]))
    ensures Span(s, i, p) == k
  {
  }

  /** `s[i..k]` is `s[i..j]` followed by `s[j..k]`. */
  lemma SliceSplit(s: string, i: nat, j: nat, k: nat)
    requires i <= j <= k <= |s|
    ensures s[i..k] == s[i..j] + s[j..k]
  {
  }

  /** `\w` of the pattern language on byte strings: letters, digits and underscore. */
  predicate IsWordChar(c: char) {
    ('a' <= c <= 'z') || ('A' <= c <= 'Z') || ('0' <= c <= '9') || c == '_'
  }

  predicate IsRootNameChar(c: char) { c != ']' && !IsSpace(c) }

  predicate IsTypeChar(c: char) { c != ']' && c != '"' && !IsSpace(c) }

  predicate IsQuotedChar(c: char) { c != '"' }

  /** `\[([^\]\s]+)\]` at the start of the line: the name of a plain section header. */
  function RootSection(line: string): Option<string>
  {
    if line == [] || line[0] != '[' then None
    else
      var k := Span(line, 1, IsRootNameChar);
      if k > 1 && k < |line| && line[k] == ']' then Some(line[1..k]) else None
  }

  /** `\[([^\]"\s]+)\s+"([^"]+)"\]` at the start of the line: the type and the name of a
      typed section header. */
  function TypedSection(line: string): Option<(string, string)>
  {
    if line == [] || line[0] != '[' then None
    else
      var t := Span(line, 1, IsTypeChar);
      var w := Span(line, t, IsSpace);
      if t == 1 || w == t || w == |line| || line[w] != '"' then None
      else
        var n := Span(line, w + 1, IsQuotedChar);
        if n > w + 1 && n + 1 < |line| && line[n] == '"' && line[n + 1] == ']' then
          Some((line[1..t], line[w + 1..n]))
        else None
  }

  /** `(\w+)\s*=\s*(.*)` at the start of the line: an option's key and value. */
  function OptionLine(line: string): Option<(string, string)>
  {
    var k := Span(line, 0, IsWordChar);
    var w := Span(line, k, IsSpace);
    if k == 0 || w == |line| || line[w] != '=' then None
    else Some((line[..k], line[Span(line, w + 1, IsSpace)..]))
  }

  /** The section a header line opens, if it is one. */
  function Header(line: string): Option<(Option<string>, string)>
  {
    match RootSection(line)
    case Some(name) => Some((None, name))
    case None =>
      match TypedSection(line)
      case Some((t, name)) => Some((Some(t), name))
      case None => None
  }

  /** A plain header: `[`, a non-empty name without `]` or whitespace, then `]`. */
  predicate RootHeaderAt(line: string, name: string)
  {
    |name| >= 1 && (forall j :: 0 <= j < |name| ==> IsRootNameChar(name[j])) &&
    StartsWith(line, "[" + name + "]")
  }

  /** `RootSection` matches exactly the lines that start with a plain header, and yields its name. */
  lemma {:induction false} RootSectionSpec(line: string, name: string)
    ensures RootSection(line) == Some(name) <==> RootHeaderAt(line, name)
  {
    if RootHeaderAt(line, name) {
      var h := "[" + name + "]";
      var n := |name|;
      assert line[..n + 2] == h;
      forall j | 1 <= j <= n ensures line[j] == name[j - 1] && IsRootNameChar(line[j]) {
        assert line[j] == h[j];
      }
      assert line[0] == h[0] && line[n + 1] == h[n + 1];
      SpanIs(line, 1, IsRootNameChar, n + 1);
      assert line[1..n + 1] == name;
    }
    if RootSection(line) == Some(name) {
      var k := Span(line, 1, IsRootNameChar);
      SliceSplit(line, 0, 1, k);
      SliceSplit(line, 0, k, k + 1);
      assert line[..1] == "[" && line[k..k + 1] == "]";
    }
  }

  /** A typed header: `[`, a non-empty type without `]`, `"` or whitespace, one or more
      whitespace characters, then a non-empty name without `"` between quotes, and `]`. */
  predicate TypedHeaderAt(line: string, sectionType: string, ws: string, name: string)
  {
    |sectionType| >= 1 && |ws| >= 1 && |name| >= 1 &&
    (forall j :: 0 <= j < |sectionType| ==> IsTypeChar(sectionType[j])) &&
    (forall j :: 0 <= j < |ws| ==> IsSpace(ws[j])) &&
    (forall j :: 0 <= j < |name| ==> IsQuotedChar(name[j])) &&
    StartsWith(line, "[" + sectionType + ws + "\"" + name + "\"]")
  }

  /** `TypedSection` matches exactly the lines that start with a typed header, and yields
      its type and name. */
  lemma {:induction false} TypedSectionSpec(line: string, sectionType: string, name: string)
    ensures TypedSection(line) == Some((sectionType, name)) <==>
      exists ws :: TypedHeaderAt(line, sectionType, ws, name)
  {
    if TypedSection(line) == Some((sectionType, name)) {
      TypedSectionShape(line);
    }
    if ws :| TypedHeaderAt(line, sectionType, ws, name) {
      TypedHeaderParts(line, sectionType, ws, name);
    }
  }

  /** A match of the typed recogniser is a typed header, with the whitespace it skipped. */
  lemma TypedSectionShape(line: string)
    requires TypedSection(line).Some?
    ensures var (sectionType, name) := TypedSection(line).value;
      exists ws :: TypedHeaderAt(line, sectionType, ws, name)
  {
    var t := Span(line, 1, IsTypeChar);
    var w := Span(line, t, IsSpace);
    var n := Span(line, w + 1, IsQuotedChar);
    TypedHeaderBetween(line, t, w, n);
  }

  /** The pieces of a line between the boundaries the recogniser finds form a typed header. */
  lemma TypedHeaderBetween(line: string, t: nat, w: nat, n: nat)
    requires 1 < t < w && w + 1 < n && n + 2 <= |line|
    requires line[0] == '[' && line[w] == '"' && line[n] == '"' && line[n + 1] == ']'
    requires forall j :: 1 <= j < t ==> IsTypeChar(line[j])
    requires forall j :: t <= j < w ==> IsSpace(line[j])
    requires forall j :: w + 1 <= j < n ==> IsQuotedChar(line[j])
    ensures TypedHeaderAt(line, line[1..t], line[t..w], line[w + 1..n])
  {
    var sectionType, ws, name := line[1..t], line[t..w], line[w + 1..n];
    forall j | 0 <= j < |sectionType| ensures IsTypeChar(sectionType[j]) { assert sectionType[j] == line[1 + j]; }
    forall j | 0 <= j < |ws| ensures IsSpace(ws[j]) { assert ws[j] == line[t + j]; }
    forall j | 0 <= j < |name| ensures IsQuotedChar(name[j]) { assert name[j] == line[w + 1 + j]; }
    SliceSplit(line, 0, 1, t);
    SliceSplit(line, 0, t, w);
    SliceSplit(line, 0, w, w + 1);
    SliceSplit(line, 0, w + 1, n);
    SliceSplit(line, 0, n, n + 2);
    assert line[..1] == "[" && line[w..w + 1] == "\"" && line[n..n + 2] == "\"]";
    assert line[..n + 2] == "[" + sectionType + ws + "\"" + name + "\"]";
  }

  /** The recogniser's greedy runs stop at the boundaries of a typed header. */
  lemma TypedHeaderParts(line: string, sectionType: string, ws: string, name: string)
    requires TypedHeaderAt(line, sectionType, ws, name)
    ensures TypedSection(line) == Some((sectionType, name))
  {
    var h := "[" + sectionType + ws + "\"" + name + "\"]";
    var t := 1 + |sectionType|;
    var w := t + |ws|;
    var n := w + 1 + |name|;
    assert line[..n + 2] == h;
    forall j | 1 <= j < t ensures line[j] == sectionType[j - 1] && IsTypeChar(line[j]) {
      assert line[j] == h[j];
    }
    forall j | t <= j < w ensures line[j] == ws[j - t] && IsSpace(line[j]) {
      assert line[j] == h[j];
    }
    forall j | w + 1 <= j < n ensures line[j] == name[j - w - 1] && IsQuotedChar(line[j]) {
      assert line[j] == h[j];
    }
    assert line[0] == h[0] && line[w] == h[w] && line[n] == h[n] && line[n + 1] == h[n + 1];
    SpanIs(line, 1, IsTypeChar, t);
    SpanIs(line, t, IsSpace, w);
    SpanIs(line, w + 1, IsQuotedChar, n);
    assert line[1..t] == sectionType && line[w + 1..n] == name;
  }

  /** An option line: a non-empty word, optional whitespace, `=`, optional whitespace, and
      a value that does not start with whitespace. */
  predicate OptionAt(line: string, key: string, ws1: string, ws2: string, value: string)
  {
    |key| >= 1 && (forall j :: 0 <= j < |key| ==> IsWordChar(key[j])) &&
    (forall j :: 0 <= j < |ws1| ==> IsSpace(ws1[j])) &&
    (forall j :: 0 <= j < |ws2| ==> IsSpace(ws2[j])) &&
    (value != [] ==> !IsSpace(value[0])) &&
    line == key + ws1 + "=" + ws2 + value
  }

  /** `OptionLine` matches exactly the lines that have the shape of an option, and yields
      its key and its value. */
  lemma {:induction false} OptionLineSpec(line: string, key: string, value: string)
    ensures OptionLine(line) == Some((key, value)) <==>
      exists ws1, ws2 :: OptionAt(line, key, ws1, ws2, value)
  {
    if OptionLine(line) == Some((key, value)) {
      OptionLineShape(line);
    }
    if ws1, ws2 :| OptionAt(line, key, ws1, ws2, value) {
      OptionParts(line, key, ws1, ws2, value);
    }
  }

  /** A match of the option recogniser is an option line, with the whitespace it skipped. */
  lemma OptionLineShape(line: string)
    requires OptionLine(line).Some?
    ensures var (key, value) := OptionLine(line).value;
      exists ws1, ws2 :: OptionAt(line, key, ws1, ws2, value)
  {
    var k := Span(line, 0, IsWordChar);
    var w := Span(line, k, IsSpace);
    var v := Span(line, w + 1, IsSpace);
    OptionBetween(line, k, w, v);
  }

  /** The pieces of a line between the boundaries the recogniser finds form an option line. */
  lemma OptionBetween(line: string, k: nat, w: nat, v: nat)
    requires 0 < k <= w < v <= |line| && line[w] == '='
    requires forall j :: 0 <= j < k ==> IsWordChar(line[j])
    requires forall j :: k <= j < w ==> IsSpace(line[j])
    requires forall j :: w + 1 <= j < v ==> IsSpace(line[j])
    requires v < |line| ==> !IsSpace(line[v])
    ensures OptionAt(line, line[..k], line[k..w], line[w + 1..v], line[v..])
  {
    var key, ws1, ws2, value := line[..k], line[k..w], line[w + 1..v], line[v..];
    forall j | 0 <= j < |ws1| ensures IsSpace(ws1[j]) { assert ws1[j] == line[k + j]; }
    forall j | 0 <= j < |ws2| ensures IsSpace(ws2[j]) { assert ws2[j] == line[w + 1 + j]; }
    SliceSplit(line, 0, k, w);
    SliceSplit(line, 0, w, w + 1);
    SliceSplit(line, 0, w + 1, v);
    SliceSplit(line, 0, v, |line|);
    assert line[w..w + 1] == "=";
    assert line == line[..|line|];
  }

  /** The recogniser's greedy runs stop at the boundaries of an option line. */
  lemma OptionParts(line: string, key: string, ws1: string, ws2: string, value: string)
    requires OptionAt(line, key, ws1, ws2, value)
    ensures OptionLine(line) == Some((key, value))
  {
    var k := |key|;
    var w := k + |ws1|;
    var v := w + 1 + |ws2|;
    forall j | 0 <= j < k ensures line[j] == key[j] && IsWordChar(line[j]) { }
    forall j | k <= j < w ensures line[j] == ws1[j - k] && IsSpace(line[j]) { }
    forall j | w + 1 <= j < v ensures line[j] == ws2[j - w - 1] && IsSpace(line[j]) { }
    assert line[w] == '=';
    assert v < |line| ==> line[v] == value[0];
    SpanIs(line, 0, IsWordChar, k);
    SpanIs(line, k, IsSpace, w);
    SpanIs(line, w + 1, IsSpace, v);
    assert line[..k] == key && line[v..] == value;
  }

  /** A header line opens a plain section exactly when `RootSection` matches and a typed
      one exactly when `TypedSection` matches; the two patterns never both match, so the
      order in which they are tried does not matter. */
  lemma {:induction false} HeaderSpec(line: string, t: string, name: string)
    ensures Header(line) == Some((None, name)) <==> RootSection(line) == Some(name)
    ensures Header(line) == Some((Some(t), name)) <==> TypedSection(line) == Some((t, name))
    ensures RootSection(line).None? || TypedSection(line).None?
  {
  }

  /** The sections closed so far and the one still open. */
  datatype ParseState = ParseState(closed: seq<Section>, open: Option<Section>)

  const Start := ParseState([], None)

  /** The sections of a state once the input ends: the open section is closed too. */
  function Finish(st: ParseState): seq<Section>
  {
    st.closed + (if st.open.Some? then [st.open.value] else [])
  }

  predicate Skipped(line: string)
  {
    Strip(line) == "" || StartsWith(Strip(line), "#")
  }

  /** A header line closes the open section and opens a new one without options. */
  function OpenHeader(st: ParseState, line: string): ParseState
  {
    match Header(line)
    case Some((t, name)) => ParseState(Finish(st), Some(Section(t, name, map[])))
    case None => st
  }

  /** An option line sets an option of the open section, if there is one. */
  function SetOption(st: ParseState, line: string): ParseState
  {
    match OptionLine(line)
    case Some((key, value)) =>
      if st.open.Some? then
        ParseState(st.closed, Some(st.open.value.(options := st.open.value.options[key := value])))
      else st
    case None => st
  }

  /** One raw line of the file. */
  function Step(st: ParseState, raw: string): ParseState
  {
    if Skipped(raw) then st else SetOption(OpenHeader(st, Strip(raw)), Strip(raw))
  }

  function Fold(st: ParseState, lines: seq<string>): ParseState
  {
    if lines == [] then st else Step(Fold(st, lines[..|lines| - 1]), lines[|lines| - 1])
  }

  /** The sections of a file with the given lines, in file order. */
  function ParseConfig(lines: seq<string>): seq<Section>
  {
    Finish(Fold(Start, lines))
  }

  class ConfigFile {
    var sections: seq<Section>

    /** Reads the file's text line by line. */
    constructor (content: string)
      ensures sections == ParseConfig(Split(content, '\n'))
    {
      new;
      var lines := Split(content, '\n');
      sections := [];
      var section: Option<string> := None;
      var sectionType: Option<string> := None;
      var options: map<string, string> := map[];
      var i := 0;
      while i < |lines|
        invariant 0 <= i <= |lines|
        invariant Fold(Start, lines[..i]) == ParseState(sections, Open(section, sectionType, options))
      {
        assert lines[..i + 1][..i] == lines[..i];
        sections, section, sectionType, options := ReadLine(sections, section, sectionType, options, lines[i]);
        i := i + 1;
      }
      assert lines[..i] == lines;
      if section.Some? {
        sections := sections + [Section(sectionType, section.value, options)];
      }
    }

    /** `has_section`: some section has this type and name. */
    predicate HasSection(sectionType: Option<string>, name: string)
      reads this
    {
      exists i :: 0 <= i < |sections| && Titled(sections[i], sectionType, name)
    }

    /** `sections_for_type`: the name and options of each section of this type, in file
        order. */
    function SectionsForType(sectionType: Option<string>): seq<(string, map<string, string>)>
      reads this
    {
      Matching(sections, sectionType)
    }

    /** `options_for_section`: the options of the first section with this type and name. */
    function OptionsForSection(sectionType: Option<string>, name: string): (r: Option<map<string, string>>)
      reads this
      ensures r.Some? <==> HasSection(sectionType, name)
      ensures r.Some? ==>
        exists i :: FirstTitled(sections, sectionType, name, i) && r.value == sections[i].options
    {
      FirstOptions(sections, sectionType, name)
    }

    /** `get_option`: the option's value in the first section with this type and name; None
        when there is no such section or it lacks the option. */
    function GetOption(sectionType: Option<string>, name: string, option: string): (r: Option<string>)
      reads this
      ensures r.Some? <==>
        exists i :: FirstTitled(sections, sectionType, name, i) && option in sections[i].options
      ensures r.Some? ==>
        exists i :: FirstTitled(sections, sectionType, name, i) && r.value == sections[i].options[option]
    {
      var opts := OptionsForSection(sectionType, name);
      if opts.Some? && |opts.value| > 0 && option in opts.value then Some(opts.value[option]) else None
    }
  }

  /** The open section the loop variables of the constructor describe. */
  function Open(section: Option<string>, sectionType: Option<string>, options: map<string, string>)
    : Option<Section>
  {
    if section.Some? then Some(Section(sectionType, section.value, options)) else None
  }

  /** One line of the constructor's loop: a header closes the open section and opens a new
      one; an option line sets an option of the open section. */
  method ReadLine(closed: seq<Section>, section: Option<string>, sectionType: Option<string>,
                  options: map<string, string>, raw: string)
    returns (closed': seq<Section>, section': Option<string>, sectionType': Option<string>,
             options': map<string, string>)
    ensures ParseState(closed', Open(section', sectionType', options')) ==
      Step(ParseState(closed, Open(section, sectionType, options)), raw)
  {
    var line := Strip(raw);
    if line == "" || StartsWith(line, "#") {
      return closed, section, sectionType, options;
    }
    closed', section', sectionType', options' := ReadHeader(closed, section, sectionType, options, line);
    options' := ReadOption(section', sectionType', options', line);
  }

  method ReadHeader(closed: seq<Section>, section: Option<string>, sectionType: Option<string>,
                    options: map<string, string>, line: string)
    returns (closed': seq<Section>, section': Option<string>, sectionType': Option<string>,
             options': map<string, string>)
    ensures ParseState(closed', Open(section', sectionType', options')) ==
      OpenHeader(ParseState(closed, Open(section, sectionType, options)), line)
  {
    closed', section', sectionType', options' := closed, section, sectionType, options;
    var root := RootSection(line);
    var typed := TypedSection(line);
    if (root.Some? || typed.Some?) && section.Some? {
      closed' := closed + [Section(sectionType, section.value, options)];
    }
    if root.Some? {
      sectionType', section', options' := None, root, map[];
    } else if typed.Some? {
      sectionType', section', options' := Some(typed.value.0), Some(typed.value.1), map[];
    }
  }

  method ReadOption(section: Option<string>, sectionType: Option<string>,
                    options: map<string, string>, line: string)
    returns (options': map<string, string>)
    ensures forall closed ::
      ParseState(closed, Open(section, sectionType, options')) ==
      SetOption(ParseState(closed, Open(section, sectionType, options)), line)
  {
    options' := options;
    var option := OptionLine(line);
    if section.Some? && option.Some? {
      options' := options[option.value.0 := option.value.1];
    }
  }

  predicate Titled(s: Section, sectionType: Option<string>, name: string)
  {
    s.sectionType == sectionType && s.name == name
  }

  /** Section `i` is the first with this type and name. */
  ghost predicate FirstTitled(sections: seq<Section>, sectionType: Option<string>, name: string, i: int)
  {
    0 <= i < |sections| && Titled(sections[i], sectionType, name) &&
    forall j :: 0 <= j < i ==> !Titled(sections[j], sectionType, name)
  }

  /** The name and options of each section of the type, in order. */
  function Matching(sections: seq<Section>, sectionType: Option<string>): seq<(string, map<string, string>)>
  {
    if sections == [] then []
    else
      (if sections[0].sectionType == sectionType then [(sections[0].name, sections[0].options)] else []) +
      Matching(sections[1..], sectionType)
  }

  /** `sections_for_type` lists exactly the sections of the type. */
  lemma {:induction false} MatchingSpec(sections: seq<Section>, sectionType: Option<string>)
    ensures forall e :: e in Matching(sections, sectionType) <==>
      exists i :: 0 <= i < |sections| && sections[i].sectionType == sectionType &&
        e == (sections[i].name, sections[i].options)
    decreases |sections|
  {
    if sections != [] {
      var rest := sections[1..];
      MatchingSpec(rest, sectionType);
      assert forall i :: 1 <= i < |sections| ==> sections[i] == rest[i - 1];
      forall e | e in Matching(sections, sectionType)
        ensures exists i ::
          0 <= i < |sections| && sections[i].sectionType == sectionType &&
          e == (sections[i].name, sections[i].options)
      {
        if e !in Matching(rest, sectionType) {
          assert sections[0].sectionType == sectionType && e == (sections[0].name, sections[0].options);
        } else {
          var i :| 0 <= i < |rest| && rest[i].sectionType == sectionType && e == (rest[i].name, rest[i].options);
          assert sections[i + 1] == rest[i];
        }
      }
    }
  }

  /** `sections_for_type` keeps file order: it distributes over concatenation. */
  lemma {:induction false} MatchingAppend(a: seq<Section>, b: seq<Section>, sectionType: Option<string>)
    ensures Matching(a + b, sectionType) == Matching(a, sectionType) + Matching(b, sectionType)
    decreases |a|
  {
    if a == [] {
      assert a + b == b;
    } else {
      assert (a + b)[0] == a[0];
      assert (a + b)[1..] == a[1..] + b;
      MatchingAppend(a[1..], b, sectionType);
    }
  }

  /** The options of the first section with the type and name. */
  function FirstOptions(sections: seq<Section>, sectionType: Option<string>, name: string)
    : (r: Option<map<string, string>>)
    ensures r.Some? <==> exists i :: 0 <= i < |sections| && Titled(sections[i], sectionType, name)
    ensures r.Some? ==>
      exists i :: FirstTitled(sections, sectionType, name, i) && r.value == sections[i].options
  {
    if sections == [] then None
    else if Titled(sections[0], sectionType, name) then
      assert FirstTitled(sections, sectionType, name, 0);
      Some(sections[0].options)
    else
      var r := FirstOptions(sections[1..], sectionType, name);
      assert forall i :: 1 <= i < |sections| ==> sections[i] == sections[1..][i - 1];
      assert forall i :: FirstTitled(sections[1..], sectionType, name, i) ==>
        FirstTitled(sections, sectionType, name, i + 1);
      r
  }

  // ---- What the parser produces ----

  /** The headers among the lines, in order. */
  function Headers(lines: seq<string>): seq<(Option<string>, string)>
  {
    if lines == [] then []
    else
      var raw := lines[|lines| - 1];
      Headers(lines[..|lines| - 1]) +
      (if !Skipped(raw) && Header(Strip(raw)).Some? then [Header(Strip(raw)).value] else [])
  }

  function Titles(sections: seq<Section>): seq<(Option<string>, string)>
  {
    if sections == [] then []
    else Titles(sections[..|sections| - 1]) + [(sections[|sections| - 1].sectionType, sections[|sections| - 1].name)]
  }

  lemma TitlesAppend(a: seq<Section>, b: seq<Section>)
    ensures Titles(a + b) == Titles(a) + Titles(b)
    decreases |b|
  {
    if b != [] {
      var front, last := b[..|b| - 1], b[|b| - 1];
      TitlesAppend(a, front);
      assert a + b == (a + front) + [last];
      assert Titles(a + b) == Titles(a + front) + [(last.sectionType, last.name)];
    } else {
      assert a + b == a;
    }
  }

  /** There is one section per header line, in the order of the headers. */
  lemma {:induction false} SectionsFollowHeaders(lines: seq<string>)
    ensures Titles(ParseConfig(lines)) == Headers(lines)
    ensures Fold(Start, lines).open.None? <==> Headers(lines) == []
    decreases |lines|
  {
    if lines != [] {
      var front := lines[..|lines| - 1];
      var raw := lines[|lines| - 1];
      SectionsFollowHeaders(front);
      var st := Fold(Start, front);
      if !Skipped(raw) && Header(Strip(raw)).Some? {
        HeaderAddsTitle(st, raw);
      } else {
        StepKeepsTitles(st, raw);
      }
    }
  }

  /** A header line adds its type and name to the titles and leaves a section open. */
  lemma HeaderAddsTitle(st: ParseState, raw: string)
    requires !Skipped(raw) && Header(Strip(raw)).Some?
    ensures Titles(Finish(Step(st, raw))) == Titles(Finish(st)) + [Header(Strip(raw)).value]
    ensures Step(st, raw).open.Some?
  {
    var (t, name) := Header(Strip(raw)).value;
    HeaderOpens(st, raw);
    TitlesAppend(Finish(st), [Section(t, name, map[])]);
    OpenTitle(Step(st, raw));
    TitlesAppend(Step(st, raw).closed, [Step(st, raw).open.value]);
  }

  /** A header line closes the open section and opens an empty one with its type and name. */
  lemma HeaderOpens(st: ParseState, raw: string)
    requires !Skipped(raw) && Header(Strip(raw)).Some?
    ensures Step(st, raw) ==
      ParseState(Finish(st), Some(Section(Header(Strip(raw)).value.0, Header(Strip(raw)).value.1, map[])))
  {
    HeaderIsNoOption(Strip(raw));
  }

  lemma OpenTitle(st: ParseState)
    requires st.open.Some?
    ensures Finish(st) == st.closed + [st.open.value]
  {
  }

  /** A line that is not a header changes neither the closed sections nor the open
      section's type and name. */
  lemma StepKeepsTitles(st: ParseState, raw: string)
    requires Skipped(raw) || Header(Strip(raw)).None?
    ensures Titles(Finish(Step(st, raw))) == Titles(Finish(st))
    ensures Step(st, raw).open.None? <==> st.open.None?
  {
    var r := Step(st, raw);
    assert r.closed == st.closed;
    if st.open.Some? {
      assert r.open.value.sectionType == st.open.value.sectionType && r.open.value.name == st.open.value.name;
      TitlesAppend(st.closed, [st.open.value]);
      TitlesAppend(r.closed, [r.open.value]);
    }
  }

  /** Lines before the first header leave the parser where it started: options outside
      any section are dropped. */
  lemma {:induction false} NoHeaderNoSection(lines: seq<string>)
    requires Headers(lines) == []
    ensures Fold(Start, lines) == Start
    decreases |lines|
  {
    if lines != [] {
      var front := lines[..|lines| - 1];
      assert Headers(front) == [];
      NoHeaderNoSection(front);
    }
  }

  lemma {:induction false} FoldAppend(st: ParseState, a: seq<string>, b: seq<string>)
    ensures Fold(st, a + b) == Fold(Fold(st, a), b)
    decreases |b|
  {
    if b != [] {
      var front, last := b[..|b| - 1], b[|b| - 1];
      FoldAppend(st, a, front);
      assert a + b == (a + front) + [last];
      assert Fold(st, a + b) == Step(Fold(st, a + front), last);
    } else {
      assert a + b == a;
    }
  }

  /** Whatever precedes the first header does not change the result. */
  lemma LeadingOptionsDropped(pre: seq<string>, rest: seq<string>)
    requires Headers(pre) == []
    ensures ParseConfig(pre + rest) == ParseConfig(rest)
  {
    FoldAppend(Start, pre, rest);
    NoHeaderNoSection(pre);
  }

  /** The options the option lines set, in order, a later key overwriting an earlier one. */
  function OptionsOf(lines: seq<string>): map<string, string>
  {
    if lines == [] then map[]
    else
      var raw := lines[|lines| - 1];
      var prev := OptionsOf(lines[..|lines| - 1]);
      if !Skipped(raw) && OptionLine(Strip(raw)).Some? then
        prev[OptionLine(Strip(raw)).value.0 := OptionLine(Strip(raw)).value.1]
      else prev
  }

  /** The options of a section are exactly those set by the option lines that follow its
      header, up to the next header. */
  lemma {:induction false} SectionOptions(st: ParseState, body: seq<string>)
    requires st.open.Some? && st.open.value.options == map[]
    requires Headers(body) == []
    ensures Fold(st, body) ==
      ParseState(st.closed, Some(st.open.value.(options := OptionsOf(body))))
    decreases |body|
  {
    if body != [] {
      var front := body[..|body| - 1];
      assert Headers(front) == [];
      SectionOptions(st, front);
    }
  }

  /** The file's last section carries the options of the lines after its header. */
  lemma LastSectionOptions(pre: seq<string>, header: string, body: seq<string>)
    requires !Skipped(header) && Header(Strip(header)).Some? && OptionLine(Strip(header)).None?
    requires Headers(body) == []
    ensures var secs := ParseConfig(pre + [header] + body);
      secs != [] &&
      secs[|secs| - 1] == Section(Header(Strip(header)).value.0, Header(Strip(header)).value.1, OptionsOf(body))
  {
    var st := Fold(Start, pre + [header]);
    assert (pre + [header])[..|pre|] == pre;
    FoldAppend(Start, pre + [header], body);
    SectionOptions(st, body);
  }

  /** A header line never looks like an option line, so the precondition above always
      holds for headers. */
  lemma HeaderIsNoOption(line: string)
    requires Header(line).Some?
    ensures OptionLine(line).None?
  {
    assert line[0] == '[';
    assert !IsWordChar(line[0]);
  }
}
