/** The path strings the plugin computes: trailing-slash removal, the file
    extension of a `src` value (both variants' rules), and the directory of
    the document being transformed (the older variant's regex). */
module Paths {
  import opened Text

  /** `s.replace(/\/+$/, "")`: every trailing `/` removed. */
  function StripTrailingSlashes(s: string): (r: string)
    ensures StartsWith(s, r)
    ensures |r| == 0 || r[|r| - 1] != '/'
    ensures forall i :: |r| <= i < |s| ==> s[i] == '/'
  {
    if |s| > 0 && s[|s| - 1] == '/' then StripTrailingSlashes(s[..|s| - 1]) else s
  }

  /** The last segment of a POSIX path, trailing separators ignored. */
  function Basename(p: string): (b: string)
    ensures '/' !in b
  {
    AfterLast(StripTrailingSlashes(p), '/')
  }

  /** Node's POSIX `path.extname`: from the last `.` of the last segment to
      its end; empty when the segment has no `.`, when its only `.` opens it
      (`.bashrc`), or when the segment is `..`. */
  function Extname(p: string): (e: string)
    ensures e == "" || (e[0] == '.' && '.' !in e[1..] && '/' !in e)
    ensures EndsWith(StripTrailingSlashes(p), e)
  {
    var b := Basename(p);
    var tail := AfterLast(b, '.');
    if '.' !in b || |tail| + 1 == |b| || b == ".." then ""
    else
      DotTail(b);
      EndsWithTrans(StripTrailingSlashes(p), b, "." + tail);
      "." + tail
  }

  predicate IsQueryOrFragmentMark(c: char) {
    c == '?' || c == '#'
  }

  /** Where `/(\?|#).*$/` matches: a `?` or `#` after which no line
      terminator follows (`.` does not cross one). */
  predicate CutsAt(e: string, i: nat)
    requires i < |e|
  {
    IsQueryOrFragmentMark(e[i]) && !HasLineTerminator(e[i + 1..])
  }

  /** `e.replace(/(\?|#).*$/, "")`: everything from the leftmost match of the
      pattern removed. */
  function StripQueryAndFragment(e: string): (r: string)
    ensures StartsWith(e, r)
    ensures forall j :: 0 <= j < |r| ==> !CutsAt(e, j)
    ensures |r| < |e| ==> CutsAt(e, |r|)
  {
    if |e| == 0 then e
    else if CutsAt(e, 0) then ""
    else
      var rest := StripQueryAndFragment(e[1..]);
      forall j | 1 <= j < |e|
        ensures CutsAt(e, j) <==> CutsAt(e[1..], j - 1)
      {
        assert e[j + 1..] == e[1..][j..];
      }
      [e[0]] + rest
  }

  /** Without line terminators, no `?` or `#` survives the stripping; and a
      text without them is left alone. */
  lemma StripQueryAndFragmentClean(e: string)
    ensures !HasLineTerminator(e) ==>
              '?' !in StripQueryAndFragment(e) && '#' !in StripQueryAndFragment(e)
    ensures ('?' !in e && '#' !in e) ==> StripQueryAndFragment(e) == e
  {
    if !HasLineTerminator(e) {
      StripLeavesNoMark(e);
    }
    if '?' !in e && '#' !in e {
      StripWithoutMarks(e);
    }
  }

  lemma StripLeavesNoMark(e: string)
    requires !HasLineTerminator(e)
    ensures '?' !in StripQueryAndFragment(e) && '#' !in StripQueryAndFragment(e)
  {
    var r := StripQueryAndFragment(e);
    forall j | 0 <= j < |r|
      ensures !IsQueryOrFragmentMark(r[j])
    {
      assert r[j] == e[j];
      assert !CutsAt(e, j);
      assert !HasLineTerminator(e[j + 1..]);
    }
  }

  lemma StripWithoutMarks(e: string)
    requires '?' !in e && '#' !in e
    ensures StripQueryAndFragment(e) == e
  {
  }

  /** The extension is taken from the path itself, so a path without line
      terminators gives an extension without them. */
  lemma ExtnameHasNoLineTerminator(source: string)
    requires !HasLineTerminator(source)
    ensures !HasLineTerminator(Extname(source))
  {
  }

  /** For a file name `<stem>.<tail>` Node's rule answers `.<tail>`; the only
      exception is the name `..` itself. */
  lemma ExtnameOfName(stem: string, tail: string)
    requires stem != [] && '/' !in stem && '/' !in tail && '.' !in tail
    requires stem + "." + tail != ".."
    ensures Extname(stem + "." + tail) == "." + tail
  {
    var p := stem + "." + tail;
    assert p[|p| - 1] != '/' by {
      if tail == [] { assert p[|p| - 1] == '.'; } else { assert p[|p| - 1] == tail[|tail| - 1]; }
    }
    assert StripTrailingSlashes(p) == p;
    assert '/' !in p;
    AfterLastWhole(p, '/');
    AfterLastAppend(stem, '.', tail);
    assert p[|stem|] == '.';
  }

  /** No `.` in a segment after its first character. */
  predicate DotOnlyFirst(b: string) {
    forall i :: 0 < i < |b| ==> b[i] != '.'
  }

  /** Node's rule in full: a non-empty extension is a proper suffix of the
      last segment, and the extension is empty exactly when the segment is
      `..` or has no `.` after its first character. */
  lemma ExtnameIsLastDot(p: string)
    ensures var b := Basename(p);
            Extname(p) != "" ==> EndsWith(b, Extname(p)) && |Extname(p)| < |b|
    ensures Extname(p) == "" <==> (Basename(p) == ".." || DotOnlyFirst(Basename(p)))
  {
    var b := Basename(p);
    var tail := AfterLast(b, '.');
    assert Extname(p) == if '.' !in b || |tail| + 1 == |b| || b == ".." then "" else "." + tail;
    SegmentLastDot(b);
  }

  /** Where the last `.` of a segment is: after its first character exactly
      when the segment has a `.` there. */
  lemma SegmentLastDot(b: string)
    ensures var tail := AfterLast(b, '.');
            '.' in b && |tail| + 1 != |b| ==> EndsWith(b, "." + tail) && |tail| + 1 < |b| && !DotOnlyFirst(b)
    ensures var tail := AfterLast(b, '.');
            '.' !in b || |tail| + 1 == |b| ==> DotOnlyFirst(b)
  {
    var tail := AfterLast(b, '.');
    AfterLastWhole(b, '.');
    if '.' in b && |tail| + 1 != |b| {
      var k := |b| - |tail| - 1;
      assert b[k] == '.' && 0 < k;
      assert b[k..] == "." + tail;
    } else if '.' in b {
      forall i | 0 < i < |b|
        ensures b[i] != '.'
      {
        assert b[i] == tail[i - 1];
      }
    }
  }




  /** The newer variant's file extension of a `src` value: Node's extension
      cut at the first `?` or `#` that the pattern matches, and whole when
      there is none. */
  function SourceExtension(source: string): (ext: string)
    ensures StartsWith(Extname(source), ext)
    ensures forall j :: 0 <= j < |ext| ==> !CutsAt(Extname(source), j)
    ensures |ext| < |Extname(source)| ==> CutsAt(Extname(source), |ext|)
    ensures '?' !in Extname(source) && '#' !in Extname(source) ==> ext == Extname(source)
    ensures '/' !in ext
    ensures !HasLineTerminator(source) ==> '?' !in ext && '#' !in ext
  {
    var e := Extname(source);
    StripQueryAndFragmentClean(e);
    if HasLineTerminator(source) then StripQueryAndFragment(e)
    else ExtnameHasNoLineTerminator(source); StripQueryAndFragment(e)
  }

  /** A first `?` or `#` with no line terminator after it is where the
      stripping cuts. */
  lemma StripAtFirstMark(e: string, k: nat)
    requires k < |e| && IsQueryOrFragmentMark(e[k]) && !HasLineTerminator(e[k + 1..])
    requires forall j :: 0 <= j < k ==> !IsQueryOrFragmentMark(e[j])
    ensures StripQueryAndFragment(e) == e[..k]
  {
    var r := StripQueryAndFragment(e);
    assert CutsAt(e, k);
  }

  /** A query string after the extension: the newer rule drops it, the older
      one keeps it (`photo.tar.gz?x=1` gives `.gz` and `.gz?x=1`). */
  lemma SourceExtensionDropsQuery(stem: string, ext: string, query: string)
    requires stem != [] && '/' !in stem && '/' !in ext && '/' !in query
    requires '.' !in ext && '.' !in query && '?' !in ext && '#' !in ext
    requires !HasLineTerminator(query)
    ensures SourceExtension(stem + "." + ext + "?" + query) == "." + ext
    ensures GetExtension(stem + "." + ext + "?" + query) == "." + ext + "?" + query
  {
    var p := stem + "." + ext + "?" + query;
    var tail := ext + "?" + query;
    assert p == stem + "." + tail;
    var e := "." + tail;
    assert e == "." + ext + "?" + query;
    assert '.' !in tail;
    ExtnameOfName(stem, tail);
    GetExtensionOfName(stem, tail);
    StripQueryAfterExtension(ext, query);
  }

  /** Stripping `.<ext>?<query>` leaves `.<ext>`. */
  lemma StripQueryAfterExtension(ext: string, query: string)
    requires '?' !in ext && '#' !in ext && !HasLineTerminator(query)
    ensures StripQueryAndFragment("." + ext + "?" + query) == "." + ext
  {
    var e := "." + ext + "?" + query;
    var k := |ext| + 1;
    assert e[k + 1..] == query;
    assert e[..k] == "." + ext;
    forall j | 0 <= j < k
      ensures !IsQueryOrFragmentMark(e[j])
    {
      if j > 0 { assert e[j] == ext[j - 1]; }
    }
    StripAtFirstMark(e, k);
  }

  lemma PhotoTarGzQuery(p: string)
    requires p == "photo.tar.gz?x=1"
    ensures SourceExtension(p) == ".gz"
    ensures GetExtension(p) == ".gz?x=1"
  {
    var stem, ext, query := "photo.tar", "gz", "x=1";
    assert p == stem + "." + ext + "?" + query;
    assert !HasLineTerminator(query);
    assert "." + ext == ".gz";
    assert "." + ext + "?" + query == ".gz?x=1";
    SourceExtensionDropsQuery(stem, ext, query);
  }

  /** The older variant's `getExtension`: split the path on `/`, split the
      last part on `.`, and answer `""` for fewer than two parts, otherwise
      `.` and the last part. */
  function GetExtension(path: string): string {
    var name := Last(Split(path, '/'));
    var parts := Split(name, '.');
    if |parts| < 2 then "" else "." + Last(parts)
  }

  /** `getExtension` is the text from the last `.` of the last `/`-segment,
      with no stripping of a query or fragment. */
  lemma GetExtensionIsLastDot(path: string)
    ensures var name := AfterLast(path, '/');
            GetExtension(path) == if '.' in name then "." + AfterLast(name, '.') else ""
  {
    SplitLast(path, '/');
    var name := AfterLast(path, '/');
    SplitCount(name, '.');
    SplitLast(name, '.');
  }

  /** A `.` followed by the text after the last `.` is an ending of the text. */
  lemma DotTail(name: string)
    requires '.' in name
    ensures EndsWith(name, "." + AfterLast(name, '.'))
  {
    var tail := AfterLast(name, '.');
    AfterLastWhole(name, '.');
    assert name[|name| - |tail| - 1..] == "." + tail;
  }

  lemma EndsWithTrans(a: string, b: string, c: string)
    requires EndsWith(a, b) && EndsWith(b, c)
    ensures EndsWith(a, c)
  {
    assert a[|a| - |c|..] == b[|b| - |c|..];
  }

  /** What `getExtension` returns: empty, or a `.` and a dot-free, slash-free
      ending of the path. */
  lemma GetExtensionShape(path: string)
    ensures var e := GetExtension(path);
            e == "" || (e[0] == '.' && '.' !in e[1..] && '/' !in e && EndsWith(path, e))
  {
    GetExtensionIsLastDot(path);
    var name := AfterLast(path, '/');
    if '.' in name {
      var e := "." + AfterLast(name, '.');
      DotTail(name);
      EndsWithTrans(path, name, e);
      assert e[1..] == AfterLast(name, '.');
    }
  }

  /** For a file name `<stem>.<tail>` the older rule answers `.<tail>`,
      whatever the tail holds: a query string or fragment stays in it. */
  lemma GetExtensionOfName(stem: string, tail: string)
    requires '/' !in stem && '/' !in tail && '.' !in tail
    ensures GetExtension(stem + "." + tail) == "." + tail
  {
    var p := stem + "." + tail;
    assert '/' !in p;
    AfterLastWhole(p, '/');
    AfterLastAppend(stem, '.', tail);
    GetExtensionIsLastDot(p);
  }

  /** A last segment without a `.` has no extension under the older rule. */
  lemma GetExtensionWithoutDot(path: string)
    requires '.' !in AfterLast(path, '/')
    ensures GetExtension(path) == ""
  {
    GetExtensionIsLastDot(path);
  }

  /** The two rules disagree on a name whose only `.` opens it (`.bashrc`):
      Node's `extname` gives no extension, the older rule gives the whole
      name. */
  lemma DotFileRulesDisagree(tail: string)
    requires tail != [] && '/' !in tail && '.' !in tail
    ensures Extname("." + tail) == ""
    ensures GetExtension("." + tail) == "." + tail
  {
    var p := "." + tail;
    assert p == [] + ['.'] + tail;
    assert p[|p| - 1] == tail[|tail| - 1];
    assert StripTrailingSlashes(p) == p;
    AfterLastWhole(p, '/');
    AfterLastAppend([], '.', tail);
    GetExtensionOfName([], tail);
  }

  /** `history[0].replace(/[^/]*$/, "")`: the path with its final run of
      non-`/` characters removed. */
  function SourceDirectory(path: string): (dir: string)
    ensures StartsWith(path, dir)
    ensures dir == "" || dir[|dir| - 1] == '/'
    ensures '/' !in path[|dir|..]
  {
    path[..|path| - |AfterLast(path, '/')|]
  }
}
