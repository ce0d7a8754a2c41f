/**
  * The eligibility predicates of src/filters.ts: which (file, action) pairs a
  * run includes, and which notifications a per-file stream view lets through.
  * `path.extname` is modelled for POSIX paths, as node's `path.posix` computes it.
  */
module Filters {
  import opened Host
  import JsString

  /** `p` without the separators at its end. */
  function TrimTrailingSlashes(p: string): (r: string)
    ensures r <= p
    ensures r == [] || r[|r| - 1] != '/'
    ensures forall k :: |r| <= k < |p| ==> p[k] == '/'
  {
    if |p| > 0 && p[|p| - 1] == '/' then TrimTrailingSlashes(p[..|p| - 1]) else p
  }

  /** The index of the last `c` in `s`, or -1 when there is none. */
  function LastIndexOf(s: string, c: char): (r: int)
    ensures -1 <= r < |s|
    ensures r >= 0 ==> s[r] == c
    ensures forall k :: r < k < |s| ==> s[k] != c
  {
    if |s| == 0 then -1
    else if s[|s| - 1] == c then |s| - 1
    else LastIndexOf(s[..|s| - 1], c)
  }

  /**
    * `path.basename(p)`: the last segment, once separators at the end are
    * dropped. It is a suffix of the trimmed path that is either all of it or
    * preceded by a separator, and it holds no separator itself.
    */
  function Basename(p: string): (b: string)
    ensures forall k :: 0 <= k < |b| ==> b[k] != '/'
    ensures var t := TrimTrailingSlashes(p);
            |b| <= |t| && b == t[|t| - |b|..] && (|b| == |t| || t[|t| - |b| - 1] == '/')
  {
    var t := TrimTrailingSlashes(p);
    var j := LastIndexOf(t, '/');
    NoSeparatorAfter(t, j, t[j + 1..]);
    t[j + 1..]
  }

  lemma NoSeparatorAfter(t: string, j: int, b: string)
    requires -1 <= j < |t| && forall k :: j < k < |t| ==> t[k] != '/'
    requires b == t[j + 1..]
    ensures forall k :: 0 <= k < |b| ==> b[k] != '/'
  {
    forall k | 0 <= k < |b|
      ensures b[k] != '/'
    {
      assert b[k] == t[j + 1 + k];
    }
  }

  /** `b` has a dot after its first character. */
  predicate HasInnerDot(b: string)
  {
    exists k :: 0 < k < |b| && b[k] == '.'
  }

  /**
    * The extension of a basename `b`: from its last dot on. It is empty when `b`
    * has no dot, when its last dot is its first character (a dotfile such as
    * `.ts`), and for `..`.
    */
  function BasenameExt(b: string): (ext: string)
    ensures ext == [] || (ext[0] == '.' && forall k :: 1 <= k < |ext| ==> ext[k] != '.')
    ensures |ext| <= |b| && ext == b[|b| - |ext|..]
    ensures ext != [] <==> HasInnerDot(b) && b != ".."
  {
    var d := LastIndexOf(b, '.');
    if d <= 0 || b == ".." then "" else b[d..]
  }

  /** `path.extname(p)`: the extension of the basename. */
  function Extname(p: string): (ext: string)
    ensures ext == [] || (ext[0] == '.' && forall k :: 1 <= k < |ext| ==> ext[k] != '.')
    ensures |ext| <= |Basename(p)| && ext == Basename(p)[|Basename(p)| - |ext|..]
    ensures var b := Basename(p);
            ext != [] <==> HasInnerDot(b) && b != ".."
  {
    BasenameExt(Basename(p))
  }

  /** `/\.ts$/.test(ext)`. */
  predicate EndsWithTs(ext: string)
  {
    |ext| >= 3 && ext[|ext| - 3..] == ".ts"
  }

  /** `/format/i.test(action)`. */
  predicate MentionsFormat(action: string)
  {
    JsString.Test(action, "format", true)
  }

  /**
    * `filterFileTypeAction(uri, action)`: a file whose extension matches
    * `/\.ts$/` takes every action; any other file only the formatting ones.
    */
  predicate FilterFileTypeAction(uri: Uri, action: string)
    ensures MentionsFormat(action) ==> FilterFileTypeAction(uri, action)
  {
    if EndsWithTs(Extname(uri.fsPath)) then true else MentionsFormat(action)
  }

  /** `byEventUri(uri)(e)`: the event is about the document whose uri renders as `uri`'s. */
  predicate ByEventUri(uri: Uri, e: DocumentEvent)
  {
    e.documentUri.text == uri.text
  }

  // ---------------------------------------------------------------------------
  // Properties
  // ---------------------------------------------------------------------------

  /**
    * The extension test only depends on the basename: it holds exactly when the
    * basename ends in `.ts` and has something before that dot.
    */
  lemma TsExtensionIffBasename(p: string)
    ensures EndsWithTs(Extname(p)) <==>
            (var b := Basename(p); |b| > 3 && b[|b| - 3..] == ".ts")
  {
    TsBasename(Basename(p));
  }

  lemma TsBasename(b: string)
    ensures EndsWithTs(BasenameExt(b)) <==> |b| > 3 && b[|b| - 3..] == ".ts"
  {
    if EndsWithTs(BasenameExt(b)) {
      TsExtensionIsSuffix(b);
    }
    if |b| > 3 && b[|b| - 3..] == ".ts" {
      TsSuffixIsExtension(b);
    }
  }

  /** A basename ending in `.ts` after at least one character has the extension `.ts`. */
  lemma TsSuffixIsExtension(b: string)
    requires |b| > 3 && b[|b| - 3..] == ".ts"
    ensures BasenameExt(b) == ".ts"
  {
    assert b[|b| - 3] == b[|b| - 3..][0] && b[|b| - 2] == b[|b| - 3..][1] && b[|b| - 1] == b[|b| - 3..][2];
    assert LastIndexOf(b, '.') == |b| - 3;
    assert BasenameExt(b) == b[|b| - 3..];
  }

  /** An extension matching `/\.ts$/` is `.ts` itself, at the end of a longer basename. */
  lemma TsExtensionIsSuffix(b: string)
    requires EndsWithTs(BasenameExt(b))
    ensures BasenameExt(b) == ".ts" && |b| > 3 && b[|b| - 3..] == ".ts"
  {
    var ext := BasenameExt(b);
    var d := LastIndexOf(b, '.');
    assert d > 0 && ext == b[d..];
    assert ext[|ext| - 3] == ext[|ext| - 3..][0] == '.';
    assert |ext| == 3;
  }

  /** A file with extension `.ts` is eligible for every action, whatever its name. */
  lemma TsFileTakesEveryAction(uri: Uri, action: string)
    ensures EndsWithTs(Extname(uri.fsPath)) ==> FilterFileTypeAction(uri, action)
  {
  }

  /**
    * Any other file is eligible exactly for the actions in which `format` occurs,
    * letters compared without regard to case.
    */
  lemma OtherFileTakesFormatActions(uri: Uri, action: string)
    ensures !EndsWithTs(Extname(uri.fsPath)) ==>
            (FilterFileTypeAction(uri, action) <==>
             exists i: nat :: i + 6 <= |action| && JsString.MatchesAt(action, "format", i, true))
  {
    JsString.TestIffOccurs(action, "format", true);
  }

  /** What a file of another type is eligible for, a `.ts` file is eligible for too. */
  lemma EligibilityMonotone(ts: Uri, other: Uri, action: string)
    ensures EndsWithTs(Extname(ts.fsPath)) ==>
            (FilterFileTypeAction(other, action) ==> FilterFileTypeAction(ts, action))
  {
  }

  /** The basename of `dir/name` is `name`, for a non-empty name without separators. */
  lemma BasenameOfJoin(dir: string, name: string)
    requires |name| > 0 && forall k :: 0 <= k < |name| ==> name[k] != '/'
    ensures Basename(dir + "/" + name) == name
  {
    var p := dir + "/" + name;
    assert p[|p| - 1] == name[|name| - 1];
    assert TrimTrailingSlashes(p) == p;
    var j := LastIndexOf(p, '/');
    assert p[|dir|] == '/';
    assert j == |dir|;
    assert p[|dir| + 1..] == name;
  }

  /**
    * The extension is taken from the last dot of the basename: a declaration
    * file counts as `.ts`; `.tsx` and the dotfile `.ts` do not. With `TsByName`
    * this holds for these names in every directory.
    */
  lemma ExtnameExamples()
    ensures EndsWithTs(BasenameExt("a.d.ts"))
    ensures !EndsWithTs(BasenameExt("x.tsx"))
    ensures !EndsWithTs(BasenameExt(".ts"))
  {
    TsBasename("a.d.ts");
    assert "a.d.ts"[3..] == ".ts";
    TsBasename("x.tsx");
    assert "x.tsx"[2..][2] == 'x';
    TsBasename(".ts");
  }

  /** Whether `dir/name` is a `.ts` file depends on `name` alone. */
  lemma TsByName(dir: string, name: string)
    requires |name| > 0 && forall k :: 0 <= k < |name| ==> name[k] != '/'
    ensures EndsWithTs(Extname(dir + "/" + name)) <==> |name| > 3 && name[|name| - 3..] == ".ts"
  {
    BasenameOfJoin(dir, name);
    TsExtensionIffBasename(dir + "/" + name);
  }

  /** A per-file view lets through every event about that file's own uri. */
  lemma ByEventUriOwnEvents(uri: Uri, source: Source)
    ensures ByEventUri(uri, DocumentEvent(source, uri))
  {
  }
}
