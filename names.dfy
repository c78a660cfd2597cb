/**
 * File names of the download intake (server.js:135-136, 143-146): the client's
 * name is sanitised, prefixed with the first hyphen-separated segment of the
 * job id, and the on-disk path and the two public URLs are derived from it.
 */
module Names {

  /** A character that JavaScript's `\s` matches: the WhiteSpace and LineTerminator code points. */
  predicate IsSpace(c: char) {
    c == '\t' || c == '\n' || c == '\U{B}' || c == '\U{C}' || c == '\r' || c == ' '
    || c == '\U{A0}' || c == '\U{1680}' || ('\U{2000}' <= c <= '\U{200A}')
    || c == '\U{2028}' || c == '\U{2029}' || c == '\U{202F}' || c == '\U{205F}'
    || c == '\U{3000}' || c == '\U{FEFF}'
  }

  /** A character that `[a-z0-9._-]` matches under the case-insensitive flag. */
  predicate IsAllowed(c: char) {
    ('a' <= c <= 'z') || ('A' <= c <= 'Z') || ('0' <= c <= '9') || c == '.' || c == '_' || c == '-'
  }

  predicate AllAllowed(s: string) {
    forall i :: 0 <= i < |s| ==> IsAllowed(s[i])
  }

  predicate NoSpace(s: string) {
    forall i :: 0 <= i < |s| ==> !IsSpace(s[i])
  }

  predicate AllSpace(s: string) {
    forall i :: 0 <= i < |s| ==> IsSpace(s[i])
  }

  /** What both replacements write. */
  const Separator: char := '_'

  /** The longest suffix of `s` that does not begin with whitespace. */
  function SkipSpaces(s: string): (r: string)
    ensures |r| <= |s| && r == s[|s| - |r|..]
    ensures AllSpace(s[..|s| - |r|])
    ensures r == [] || !IsSpace(r[0])
  {
    if s != [] && IsSpace(s[0]) then SkipSpaces(s[1..]) else s
  }

  /** `s.replace(/\s+/g, '_')`: every maximal run of whitespace becomes one separator. */
  function CollapseSpaces(s: string): (r: string)
    ensures |r| <= |s|
    ensures NoSpace(r)
    ensures r == [] <==> s == []
  {
    if s == [] then []
    else
      var head := if IsSpace(s[0]) then Separator else s[0];
      var tail := CollapseSpaces(if IsSpace(s[0]) then SkipSpaces(s[1..]) else s[1..]);
      assert !IsSpace(head);
      assert forall i :: 0 < i <= |tail| ==> ([head] + tail)[i] == tail[i - 1];
      [head] + tail
  }

  /** `s.replace(/[^a-z0-9._-]/gi, '_')`: every character outside the class is replaced, one for one. */
  function ReplaceDisallowed(s: string): (r: string)
    ensures |r| == |s|
    ensures forall i :: 0 <= i < |s| ==> r[i] == if IsAllowed(s[i]) then s[i] else Separator
  {
    if s == [] then []
    else [if IsAllowed(s[0]) then s[0] else Separator] + ReplaceDisallowed(s[1..])
  }

  /** `safeFilename` of server.js:135: whitespace runs first, then the remaining disallowed characters. */
  function Sanitize(name: string): (safe: string)
    ensures AllAllowed(safe)
    ensures |safe| <= |name|
    ensures safe == [] <==> name == []
  {
    ReplaceDisallowed(CollapseSpaces(name))
  }

  /** On a string without whitespace the first pass changes nothing. */
  lemma {:induction false} CollapseSpacesIdentity(s: string)
    requires NoSpace(s)
    ensures CollapseSpaces(s) == s
  {
    if s != [] {
      CollapseSpacesIdentity(s[1..]);
    }
  }

  lemma ConcatAssoc<T>(a: seq<T>, b: seq<T>, c: seq<T>)
    ensures a + (b + c) == a + b + c
  {
  }

  lemma ConcatTail<T>(a: seq<T>, b: seq<T>)
    requires a != []
    ensures (a + b)[0] == a[0] && (a + b)[1..] == a[1..] + b
  {
  }

  /** Whitespace in front of a non-whitespace start is skipped entirely. */
  lemma {:induction false} SkipSpacesOver(w: string, q: string)
    requires AllSpace(w)
    requires q == [] || !IsSpace(q[0])
    ensures SkipSpaces(w + q) == q
  {
    if w == [] {
      assert w + q == q;
    } else {
      ConcatTail(w, q);
      assert IsSpace(w[0]);
      assert AllSpace(w[1..]) by {
        forall i | 0 <= i < |w| - 1
          ensures IsSpace(w[1..][i])
        {
          assert w[1..][i] == w[i + 1];
        }
      }
      SkipSpacesOver(w[1..], q);
    }
  }

  /** Skipping stops inside `a` when `a` ends with a non-whitespace character. */
  lemma {:induction false} SkipSpacesAppend(a: string, b: string)
    requires a != [] && !IsSpace(a[|a| - 1])
    ensures SkipSpaces(a + b) == SkipSpaces(a) + b
  {
    ConcatTail(a, b);
    if IsSpace(a[0]) {
      SkipSpacesAppend(a[1..], b);
    }
  }

  /**
   * A maximal whitespace run (nothing whitespace on either side of it) becomes
   * exactly one separator, and the text on both sides is rewritten on its own.
   */
  lemma {:induction false} CollapseRun(p: string, w: string, q: string)
    requires p == [] || !IsSpace(p[|p| - 1])
    requires w != [] && AllSpace(w)
    requires q == [] || !IsSpace(q[0])
    ensures CollapseSpaces(p + w + q) == CollapseSpaces(p) + [Separator] + CollapseSpaces(q)
    decreases |p|, 1
  {
    if p == [] {
      assert p + w + q == w + q;
      ConcatTail(w, q);
      SkipSpacesOver(w[1..], q);
    } else if IsSpace(p[0]) {
      CollapseRunAfterSpace(p, w, q);
    } else {
      CollapseRunAfterOther(p, w, q);
    }
  }

  /** The case of `CollapseRun` where `p` begins with its own whitespace run. */
  lemma {:induction false} CollapseRunAfterSpace(p: string, w: string, q: string)
    requires p != [] && IsSpace(p[0]) && !IsSpace(p[|p| - 1])
    requires w != [] && AllSpace(w)
    requires q == [] || !IsSpace(q[0])
    ensures CollapseSpaces(p + w + q) == CollapseSpaces(p) + [Separator] + CollapseSpaces(q)
    decreases |p|, 0
  {
    ConcatAssoc(p, w, q);
    ConcatTail(p, w + q);
    SkipSpacesAppend(p[1..], w + q);
    var rest := SkipSpaces(p[1..]);
    assert rest == [] || rest[|rest| - 1] == p[|p| - 1];
    ConcatAssoc(rest, w, q);
    CollapseRun(rest, w, q);
    JoinAroundSeparator(Separator, CollapseSpaces(rest), CollapseSpaces(q));
  }

  /** The case of `CollapseRun` where `p` begins with a non-whitespace character. */
  lemma {:induction false} CollapseRunAfterOther(p: string, w: string, q: string)
    requires p != [] && !IsSpace(p[0]) && !IsSpace(p[|p| - 1])
    requires w != [] && AllSpace(w)
    requires q == [] || !IsSpace(q[0])
    ensures CollapseSpaces(p + w + q) == CollapseSpaces(p) + [Separator] + CollapseSpaces(q)
    decreases |p|, 0
  {
    ConcatAssoc(p, w, q);
    ConcatTail(p, w + q);
    ConcatAssoc(p[1..], w, q);
    CollapseRun(p[1..], w, q);
    JoinAroundSeparator(p[0], CollapseSpaces(p[1..]), CollapseSpaces(q));
  }

  lemma JoinAroundSeparator(c: char, a: string, b: string)
    ensures [c] + (a + [Separator] + b) == ([c] + a) + [Separator] + b
  {
  }

  /** On a name without whitespace, a disallowed character is replaced in place, never dropped. */
  lemma SanitizeReplacesInPlace(s: string)
    requires NoSpace(s)
    ensures |Sanitize(s)| == |s|
    ensures forall i :: 0 <= i < |s| ==> Sanitize(s)[i] == if IsAllowed(s[i]) then s[i] else Separator
  {
    CollapseSpacesIdentity(s);
  }

  /** A name already made of allowed characters is kept as it is. */
  lemma SanitizeKeepsAllowed(s: string)
    requires AllAllowed(s)
    ensures Sanitize(s) == s
  {
    CollapseSpacesIdentity(s);
  }

  lemma SanitizeIdempotent(s: string)
    ensures Sanitize(Sanitize(s)) == Sanitize(s)
  {
    SanitizeKeepsAllowed(Sanitize(s));
  }

  /** A character outside the Basic Multilingual Plane is one `char` here and becomes one separator. */
  lemma SanitizeAstral()
    ensures Sanitize("\U{1F600}.txt") == "_.txt"
  {
    assert CollapseSpaces("\U{1F600}.txt") == "\U{1F600}.txt" by {
      CollapseSpacesIdentity("\U{1F600}.txt");
    }
  }

  /** `id.split('-')[0]`: the text before the first hyphen, or all of `id` when it has none. */
  function FirstSegment(id: string): (seg: string)
    ensures '-' !in seg
    ensures seg <= id
    ensures seg == id || id[|seg|] == '-'
  {
    if id == [] || id[0] == '-' then [] else [id[0]] + FirstSegment(id[1..])
  }

  /** `uniqueFilename` of server.js:136. */
  function UniqueName(id: string, safe: string): string {
    FirstSegment(id) + "-" + safe
  }

  lemma {:induction false} FirstSegmentBeforeHyphen(seg: string, rest: string)
    requires '-' !in seg
    ensures FirstSegment(seg + "-" + rest) == seg
  {
    if seg != [] {
      assert (seg + "-" + rest)[1..] == seg[1..] + "-" + rest;
      FirstSegmentBeforeHyphen(seg[1..], rest);
    }
  }

  /** The stored name splits back, at its first hyphen, into the id's segment and the sanitised name. */
  lemma UniqueNameSplits(id: string, safe: string)
    ensures FirstSegment(UniqueName(id, safe)) == FirstSegment(id)
    ensures UniqueName(id, safe)[|FirstSegment(id)| + 1..] == safe
  {
    FirstSegmentBeforeHyphen(FirstSegment(id), safe);
  }

  /**
   * Two stored names coincide exactly when the ids share their first segment and
   * the sanitised names are equal: distinct ids alone do not keep names apart.
   */
  lemma UniqueNameCollides(id1: string, safe1: string, id2: string, safe2: string)
    ensures UniqueName(id1, safe1) == UniqueName(id2, safe2)
        <==> FirstSegment(id1) == FirstSegment(id2) && safe1 == safe2
  {
    if UniqueName(id1, safe1) == UniqueName(id2, safe2) {
      UniqueNameSplits(id1, safe1);
      UniqueNameSplits(id2, safe2);
    }
  }

  predicate IsHexDigit(c: char) {
    ('0' <= c <= '9') || ('a' <= c <= 'f') || ('A' <= c <= 'F')
  }

  /** The text a UUID generator produces: hexadecimal digits and hyphens. */
  predicate IsIdText(id: string) {
    forall i :: 0 <= i < |id| ==> IsHexDigit(id[i]) || id[i] == '-'
  }

  /** A name `path.join` appends as one component: not empty, no `/`, not `.` or `..`. */
  predicate IsPlainComponent(name: string) {
    name != [] && name != "." && name != ".." && '/' !in name
  }

  /** With a UUID-shaped id, the stored name is made of allowed characters and is one path component. */
  lemma UniqueNameIsPlain(id: string, hint: string)
    requires IsIdText(id)
    ensures AllAllowed(UniqueName(id, Sanitize(hint)))
    ensures IsPlainComponent(UniqueName(id, Sanitize(hint)))
  {
    var seg, safe := FirstSegment(id), Sanitize(hint);
    var name := UniqueName(id, safe);
    assert forall i :: 0 <= i < |seg| ==> seg[i] == id[i];
    assert name[|seg|] == '-';
    assert forall i :: 0 <= i < |name| ==> IsAllowed(name[i]) by {
      forall i | 0 <= i < |name| ensures IsAllowed(name[i]) {
        if i > |seg| {
          assert name[i] == safe[i - |seg| - 1];
        }
      }
    }
    assert name != "." && name != ".." by {
      assert |name| <= 2 ==> |seg| <= 1;
      assert name[|seg|] == '-';
    }
  }

  /** `path.join(TEMP_DIR, name)` for a name that is one plain component. */
  function TempFilePath(dir: string, name: string): string {
    dir + "/" + name
  }

  /** The text after the last `/` of a path. */
  function LastComponent(path: string): string {
    if path == [] then []
    else if path[|path| - 1] == '/' then []
    else LastComponent(path[..|path| - 1]) + [path[|path| - 1]]
  }

  /** The file a job writes lies directly in the temporary directory, under its stored name. */
  lemma {:induction false} TempFilePathLeaf(dir: string, name: string)
    requires '/' !in name
    ensures LastComponent(TempFilePath(dir, name)) == name
    decreases |name|
  {
    var path := TempFilePath(dir, name);
    if name == [] {
      assert path[|path| - 1] == '/';
    } else {
      var init := name[..|name| - 1];
      assert path[..|path| - 1] == TempFilePath(dir, init);
      assert path[|path| - 1] == name[|name| - 1];
      TempFilePathLeaf(dir, init);
      assert init + [name[|name| - 1]] == name;
    }
  }

  /** `finalUrl` of server.js:144. */
  function DownloadUrl(protocol: string, host: string, name: string): string {
    protocol + "://" + host + "/downloads/" + name
  }

  /** `smartRedirectUrl` of server.js:146. */
  function RedirectUrl(protocol: string, host: string, id: string): string {
    protocol + "://" + host + "/dl/" + id
  }
}
