/**
  The handful of Python string operations the parsers of the repository rely on:
  `str.split` and `str.join` with a one-character separator, `str.partition`,
  `str.strip`, `str.startswith` and `os.path.basename`. Strings are sequences of
  characters; whitespace is the ASCII whitespace of Python 2 byte strings.
*/
module Text {

  /** Python 2's whitespace for byte strings: space, tab, LF, CR, VT and FF. */
  predicate IsSpace(c: char) {
    c == ' ' || c == '\t' || c == '\n' || c == '\r' || c == '\U{0B}' || c == '\U{0C}'
  }

  predicate StartsWith(s: string, prefix: string) {
    |prefix| <= |s| && s[..|prefix|] == prefix
  }

  /** The position of the first `c` in `s`, or `|s|` when `c` does not occur. */
  function IndexOf(s: string, c: char): (k: nat)
    ensures k <= |s|
    ensures forall j :: 0 <= j < k ==> s[j] != c
    ensures k < |s| ==> s[k] == c
  {
    if s == [] || s[0] == c then 0 else 1 + IndexOf(s[1..], c)
  }

  /** IndexOf is determined by its contract. */
  lemma IndexOfIs(s: string, c: char, k: nat)
    requires k <= |s|
    requires forall j :: 0 <= j < k ==> s[j] != c
    requires k < |s| ==> s[k] == c
    ensures IndexOf(s, c) == k
  {
    var i := IndexOf(s, c);
    assert i < |s| ==> s[i] == c;
    assert k < |s| ==> s[k] == c;
  }

  /** The position of the last `c` in `s`, or -1 when `c` does not occur. */
  function LastIndexOf(s: string, c: char): (k: int)
    ensures -1 <= k < |s|
    ensures k >= 0 ==> s[k] == c
    ensures forall j :: k < j < |s| ==> s[j] != c
  {
    if s == [] then -1
    else if s[|s| - 1] == c then |s| - 1
    else LastIndexOf(s[..|s| - 1], c)
  }

  /** Python's `s.split(sep)`: the pieces of `s` between consecutive separators. */
  function Split(s: string, sep: char): (parts: seq<string>)
    ensures |parts| >= 1
    ensures forall i :: 0 <= i < |parts| ==> sep !in parts[i]
    decreases |s|
  {
    var k := IndexOf(s, sep);
    if k == |s| then
      assert forall j :: 0 <= j < |s| ==> s[j] != sep;
      [s]
    else
      assert forall j :: 0 <= j < k ==> s[..k][j] != sep;
      [s[..k]] + Split(s[k + 1..], sep)
  }

  /** Python's `sep.join(parts)`. */
  function Join(parts: seq<string>, sep: char): string
  {
    if |parts| == 0 then ""
    else if |parts| == 1 then parts[0]
    else parts[0] + [sep] + Join(parts[1..], sep)
  }

  /** Joining the pieces of a split gives the original text back. */
  lemma {:induction false} JoinSplit(s: string, sep: char)
    ensures Join(Split(s, sep), sep) == s
    decreases |s|
  {
    var k := IndexOf(s, sep);
    if k < |s| {
      var rest := Split(s[k + 1..], sep);
      JoinSplit(s[k + 1..], sep);
      assert Split(s, sep) == [s[..k]] + rest;
      assert ([s[..k]] + rest)[1..] == rest;
      assert s == s[..k] + [sep] + s[k + 1..];
    }
  }

  /** A string that ends with the separator splits into pieces whose last one is empty. */
  lemma {:induction false} SplitLastEmpty(s: string, sep: char)
    requires s != [] && s[|s| - 1] == sep
    ensures Split(s, sep)[|Split(s, sep)| - 1] == ""
    decreases |s|
  {
    var k := IndexOf(s, sep);
    var rest := s[k + 1..];
    assert Split(s, sep) == [s[..k]] + Split(rest, sep);
    if rest != [] {
      assert rest[|rest| - 1] == sep;
      SplitLastEmpty(rest, sep);
    }
  }

  /** A separator-free piece followed by the separator splits off as the first piece. */
  lemma SplitCons(p: string, sep: char, t: string)
    requires sep !in p
    ensures Split(p + [sep] + t, sep) == [p] + Split(t, sep)
  {
    var s := p + [sep] + t;
    assert forall j :: 0 <= j < |p| ==> s[j] == p[j];
    IndexOfIs(s, sep, |p|);
    assert s[..|p|] == p;
    assert s[|p| + 1..] == t;
  }

  lemma SplitJoinSingle(parts: seq<string>, sep: char)
    requires |parts| == 1
    ensures Split(Join(parts, sep), sep) == parts[..0] + Split(parts[0], sep)
  {
    assert Join(parts, sep) == parts[0];
    assert parts[..0] == [];
  }

  /** Joining more than one piece puts the first piece and a separator in front. */
  lemma JoinCons(parts: seq<string>, sep: char)
    requires |parts| > 1
    ensures Join(parts, sep) == parts[0] + [sep] + Join(parts[1..], sep)
  {
  }

  /** One step of SplitJoinLast: a separator-free first piece splits off in front of
      the split of the remaining join. */
  lemma SplitJoinStep(parts: seq<string>, sep: char)
    requires |parts| > 1 && sep !in parts[0]
    requires Split(Join(parts[1..], sep), sep)
          == parts[1..][..|parts| - 2] + Split(parts[|parts| - 1], sep)
    ensures Split(Join(parts, sep), sep) == parts[..|parts| - 1] + Split(parts[|parts| - 1], sep)
  {
    var tail := parts[1..];
    var j := Join(tail, sep);
    JoinCons(parts, sep);
    SplitCons(parts[0], sep, j);
    ConsFront(parts);
    Glue(Split(Join(parts, sep), sep), Split(j, sep), parts[0], tail[..|tail| - 1],
         Split(parts[|parts| - 1], sep), parts[..|parts| - 1]);
  }

  lemma ConsFront(parts: seq<string>)
    requires |parts| > 1
    ensures parts[..|parts| - 1] == [parts[0]] + parts[1..][..|parts| - 2]
  {
  }

  lemma Glue(s: seq<string>, t: seq<string>, x: string, front: seq<string>, last: seq<string>,
             init: seq<string>)
    requires s == [x] + t && t == front + last && init == [x] + front
    ensures s == init + last
  {
  }

  /** Splitting a join whose pieces, except perhaps the last, are free of the separator
      gives those pieces back, followed by the pieces of the last one. */
  lemma {:induction false} SplitJoinLast(parts: seq<string>, sep: char)
    requires |parts| >= 1
    requires forall i :: 0 <= i < |parts| - 1 ==> sep !in parts[i]
    ensures Split(Join(parts, sep), sep) == parts[..|parts| - 1] + Split(parts[|parts| - 1], sep)
    decreases |parts|
  {
    if |parts| == 1 {
      SplitJoinSingle(parts, sep);
    } else {
      var tail := parts[1..];
      forall i | 0 <= i < |tail| - 1 ensures sep !in tail[i] {
        assert tail[i] == parts[i + 1];
      }
      SplitJoinLast(tail, sep);
      SplitJoinStep(parts, sep);
    }
  }

  /** Splitting a join of separator-free pieces gives the pieces back. */
  lemma SplitJoin(parts: seq<string>, sep: char)
    requires |parts| >= 1
    requires forall i :: 0 <= i < |parts| ==> sep !in parts[i]
    ensures Split(Join(parts, sep), sep) == parts
  {
    var last := parts[|parts| - 1];
    SplitJoinLast(parts, sep);
    IndexOfIs(last, sep, |last|);
    assert parts == parts[..|parts| - 1] + [last];
  }

  /** Python's `s.partition(c)` without the middle part: the text before the first `c`
      and the text after it, or the whole of `s` and "" when `c` does not occur. */
  function Partition(s: string, c: char): (r: (string, string))
    ensures c !in r.0
    ensures c in s ==> s == r.0 + [c] + r.1
    ensures c !in s ==> r == (s, "")
  {
    var k := IndexOf(s, c);
    assert forall j :: 0 <= j < k ==> s[..k][j] != c;
    if k == |s| then (s, "") else (s[..k], s[k + 1..])
  }

  /** Python's `s.lstrip()`. */
  function TrimLeft(s: string): string
  {
    if s != [] && IsSpace(s[0]) then TrimLeft(s[1..]) else s
  }

  /** TrimLeft removes exactly the leading whitespace. */
  lemma {:induction false} TrimLeftSpec(s: string)
    ensures var r := TrimLeft(s);
      |r| <= |s| && r == s[|s| - |r|..] &&
      (r == [] || !IsSpace(r[0])) &&
      forall j :: 0 <= j < |s| - |r| ==> IsSpace(s[j])
    decreases |s|
  {
    if s != [] && IsSpace(s[0]) {
      TrimLeftSpec(s[1..]);
      var r := TrimLeft(s);
      forall j | 1 <= j < |s| - |r| ensures IsSpace(s[j]) {
        assert s[j] == s[1..][j - 1];
      }
    }
  }

  /** Python's `s.rstrip()`. */
  function TrimRight(s: string): string
  {
    if s != [] && IsSpace(s[|s| - 1]) then TrimRight(s[..|s| - 1]) else s
  }

  /** TrimRight removes exactly the trailing whitespace. */
  lemma {:induction false} TrimRightSpec(s: string)
    ensures var r := TrimRight(s);
      |r| <= |s| && r == s[..|r|] &&
      (r == [] || !IsSpace(r[|r| - 1])) &&
      forall j :: |r| <= j < |s| ==> IsSpace(s[j])
    decreases |s|
  {
    if s != [] && IsSpace(s[|s| - 1]) {
      TrimRightSpec(s[..|s| - 1]);
      var r := TrimRight(s);
      forall j | |r| <= j < |s| - 1 ensures IsSpace(s[j]) {
        assert s[j] == s[..|s| - 1][j];
      }
    }
  }

  /** Python's `s.strip()`. */
  function Strip(s: string): string
  {
    TrimRight(TrimLeft(s))
  }

  /** Strip removes exactly the leading and the trailing whitespace: the result is the
      slice of `s` between them. It is "" exactly for all-whitespace text, and otherwise
      neither starts nor ends with whitespace. */
  lemma {:induction false} StripSpec(s: string)
    ensures var k := |s| - |TrimLeft(s)|; var r := Strip(s);
      |TrimLeft(s)| <= |s| && k + |r| <= |s| && r == s[k..k + |r|] &&
      (forall j :: 0 <= j < k ==> IsSpace(s[j])) &&
      (forall j :: k + |r| <= j < |s| ==> IsSpace(s[j]))
    ensures Strip(s) == [] <==> forall j :: 0 <= j < |s| ==> IsSpace(s[j])
    ensures Strip(s) != [] ==> !IsSpace(Strip(s)[0]) && !IsSpace(Strip(s)[|Strip(s)| - 1])
  {
    var l := TrimLeft(s);
    TrimLeftSpec(s);
    TrimRightSpec(l);
    var r := TrimRight(l);
    var k := |s| - |l|;
    SliceOfSuffix(s, l, r);
    forall j | k + |r| <= j < |s| ensures IsSpace(s[j]) {
      assert IsSpace(l[j - k]);
    }
    if r != [] {
      assert r[0] == l[0];
      assert !IsSpace(s[k]);
    }
  }

  /** A prefix `r` of a suffix `l` of `s` is a slice of `s`. */
  lemma SliceOfSuffix(s: string, l: string, r: string)
    requires |l| <= |s| && l == s[|s| - |l|..] && |r| <= |l| && r == l[..|r|]
    ensures var k := |s| - |l|;
      k + |r| <= |s| && r == s[k..k + |r|] &&
      forall j :: k <= j < |s| ==> s[j] == l[j - k]
  {
  }

  /** Stripping text that neither starts nor ends with whitespace changes nothing. */
  lemma StripUnpadded(s: string)
    requires s == [] || (!IsSpace(s[0]) && !IsSpace(s[|s| - 1]))
    ensures Strip(s) == s
  {
  }

  /** Python's `os.path.basename`: the text after the last '/'. */
  function Basename(path: string): (name: string)
    ensures '/' !in name
    ensures |name| <= |path| && name == path[|path| - |name|..]
    ensures |name| < |path| ==> path[|path| - |name| - 1] == '/'
  {
    var k := LastIndexOf(path, '/');
    var name := path[k + 1..];
    assert forall j :: 0 <= j < |name| ==> name[j] != '/' by {
      forall j | 0 <= j < |name| ensures name[j] != '/' {
        assert name[j] == path[k + 1 + j];
      }
    }
    name
  }
}
