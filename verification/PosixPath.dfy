/** The one spelling of a repository path that freezes and change graphs accept. */
module PosixPath {
  import opened Common

  predicate IsSpace(c: char) {
    var n := c as int;
    || 0x09 <= n <= 0x0D || 0x1C <= n <= 0x20 || n == 0x85 || n == 0xA0 || n == 0x1680
    || 0x2000 <= n <= 0x200A || n == 0x2028 || n == 0x2029 || n == 0x202F || n == 0x205F || n == 0x3000
  }

  /** Nothing to strip at either end, and something left. */
  predicate Trimmed(raw: string) {
    raw != "" && !IsSpace(raw[0]) && !IsSpace(raw[|raw| - 1])
  }

  function Split(raw: string): (segments: seq<string>)
    ensures segments != []
    ensures forall s :: s in segments ==> '/' !in s
  {
    if raw == "" then [""]
    else
      var rest := Split(raw[1..]);
      if raw[0] == '/' then [""] + rest else [[raw[0]] + rest[0]] + rest[1..]
  }

  function Join(segments: seq<string>): string {
    if segments == [] then ""
    else if |segments| == 1 then segments[0]
    else segments[0] + "/" + Join(segments[1..])
  }

  /** The parts a pure POSIX path keeps: empty and `.` segments vanish. */
  function Kept(segments: seq<string>): (parts: seq<string>)
    ensures forall s :: s in parts <==> s in segments && s != "" && s != "."
    ensures |parts| <= |segments|
  {
    if segments == [] then []
    else (if segments[0] == "" || segments[0] == "." then [] else [segments[0]]) + Kept(segments[1..])
  }

  /** The anchor of an absolute path; exactly two leading slashes are one of their own. */
  function Root(raw: string): string {
    if raw == "" || raw[0] != '/' then ""
    else if |raw| >= 2 && raw[1] == '/' && (|raw| == 2 || raw[2] != '/') then "//"
    else "/"
  }

  function Tail(raw: string): seq<string> {
    Kept(Split(raw))
  }

  function Parts(raw: string): seq<string> {
    (if Root(raw) == "" then [] else [Root(raw)]) + Tail(raw)
  }

  /** The canonical spelling of a path. */
  function AsPosix(raw: string): string {
    if Parts(raw) == [] then "." else Root(raw) + Join(Tail(raw))
  }

  /** What both validators test, in their terms. */
  predicate Accepted(raw: string) {
    && Trimmed(raw)
    && '\\' !in raw
    && raw[|raw| - 1] != '/'
    && Root(raw) == ""
    && ".." !in Parts(raw) && "." !in Parts(raw)
    && AsPosix(raw) == raw
  }

  /** Every segment names something. */
  predicate Canonical(raw: string) {
    Trimmed(raw) && '\\' !in raw && forall s :: s in Split(raw) ==> s != "" && s != "." && s != ".."
  }

  lemma {:induction false} JoinSplit(raw: string)
    ensures Join(Split(raw)) == raw
  {
    if raw != "" {
      var rest := Split(raw[1..]);
      JoinSplit(raw[1..]);
      assert raw == [raw[0]] + raw[1..];
      if raw[0] == '/' {
        assert Split(raw)[1..] == rest;
      } else if |rest| > 1 {
        assert Split(raw)[1..] == rest[1..];
        assert [raw[0]] + (rest[0] + "/" + Join(rest[1..])) == ([raw[0]] + rest[0]) + "/" + Join(rest[1..]);
      }
    }
  }

  /** Dropping a segment makes the path shorter. */
  lemma {:induction false} KeptIsShorter(segments: seq<string>)
    requires Kept(segments) != []
    ensures |Join(Kept(segments))| <= |Join(segments)|
    ensures |Join(Kept(segments))| == |Join(segments)| ==> Kept(segments) == segments
  {
    var rest := segments[1..];
    if Kept(rest) != [] {
      KeptIsShorter(rest);
      assert rest != [] && Join(segments) == segments[0] + "/" + Join(rest);
      if segments[0] != "" && segments[0] != "." {
        assert Kept(segments) == [segments[0]] + Kept(rest);
        assert Kept(segments)[1..] == Kept(rest);
        assert Join(Kept(segments)) == segments[0] + "/" + Join(Kept(rest));
        assert segments == [segments[0]] + rest;
      } else {
        assert Kept(segments) == Kept(rest);
      }
    } else if rest != [] {
      assert Kept(segments) == [segments[0]];
    } else {
      assert segments == [segments[0]];
    }
  }

  lemma {:induction false} KeptAll(segments: seq<string>)
    requires forall s :: s in segments ==> s != "" && s != "."
    ensures Kept(segments) == segments
  {
    if segments != [] {
      assert segments[0] in segments && forall s :: s in segments[1..] ==> s in segments;
      KeptAll(segments[1..]);
      assert segments == [segments[0]] + segments[1..];
    }
  }

  /** The test accepts exactly the canonical relative paths and the single spelling ".", which names
      the root and no artifact: its only segment vanishes before it can be refused. */
  lemma AcceptedIff(raw: string)
    ensures Accepted(raw) <==> raw == "." || Canonical(raw)
  {
    if Accepted(raw) { AcceptedIsCanonical(raw); }
    if Canonical(raw) { CanonicalIsAccepted(raw); }
    DotParts();
  }

  lemma AcceptedIsCanonical(raw: string)
    requires Accepted(raw)
    ensures raw == "." || Canonical(raw)
  {
    hide Split, Kept, Join, IsSpace;
    Relative(raw);
    if Parts(raw) != [] {
      JoinSplit(raw);
      KeptIsShorter(Split(raw));
      assert Parts(raw) == Split(raw);
    }
  }

  lemma CanonicalIsAccepted(raw: string)
    requires Canonical(raw)
    ensures Accepted(raw)
  {
    hide Split, Kept, Join, IsSpace;
    JoinSplit(raw);
    KeptAll(Split(raw));
    EndsAreNotSlashes(raw);
    Relative(raw);
  }

  lemma DotParts()
    ensures Parts(".") == [] && Accepted(".")
  {
  }

  /** A path whose segments all name something neither starts nor ends with a slash. */
  lemma EndsAreNotSlashes(raw: string)
    requires raw != "" && forall s :: s in Split(raw) ==> s != ""
    ensures raw[0] != '/' && raw[|raw| - 1] != '/'
  {
    hide Split;
    FirstSegment(raw);
    LastSegment(raw);
    assert Split(raw)[0] in Split(raw) && Split(raw)[|Split(raw)| - 1] in Split(raw);
  }

  /** A relative path has no anchor, so its parts are its segments. */
  lemma Relative(raw: string)
    requires Root(raw) == ""
    ensures Parts(raw) == Tail(raw) == Kept(Split(raw))
    ensures Tail(raw) != [] ==> AsPosix(raw) == Join(Tail(raw))
  {
  }

  lemma FirstSegment(raw: string)
    requires raw != ""
    ensures raw[0] == '/' ==> Split(raw)[0] == ""
  {
  }

  lemma {:induction false} LastSegment(raw: string)
    requires raw != ""
    ensures raw[|raw| - 1] == '/' ==> Split(raw)[|Split(raw)| - 1] == ""
  {
    if |raw| > 1 { LastSegment(raw[1..]); } else { assert raw[1..] == ""; }
  }

  // ---------------------------------------------------------------- scope

  /** Containment by whole segments, as the graph's scope test does it. */
  predicate InScope(path: string, scope: string) {
    || scope == "" || scope == "."
    || (var s := Parts(scope); |s| <= |Parts(path)| && Parts(path)[..|s|] == s)
  }

  function Name(path: string): string {
    if Tail(path) == [] then "" else Tail(path)[|Tail(path)| - 1]
  }

  predicate IsControlFile(path: string) {
    Name(path) == "graph.json" || Name(path) == "ledger.json"
  }

  lemma SplitSlash(raw: string)
    ensures Split("/" + raw) == [""] + Split(raw)
    ensures Split("") == [""]
  {
  }

  lemma {:induction false} SplitJoin(segments: seq<string>)
    requires segments != [] && forall s :: s in segments ==> '/' !in s
    ensures Split(Join(segments)) == segments
  {
    hide Split;
    assert segments[0] in segments && segments[0] + "" == segments[0];
    if |segments| == 1 {
      SplitSlash("");
      SplitPlain(segments[0], "");
      assert segments == [segments[0]] + [];
    } else {
      var rest := segments[1..];
      assert forall s :: s in rest ==> s in segments;
      SplitJoin(rest);
      SplitSlash(Join(rest));
      SplitPlain(segments[0], "/" + Join(rest));
      assert segments[0] + "/" + Join(rest) == segments[0] + ("/" + Join(rest));
      assert segments == [segments[0]] + rest && ([""] + rest)[1..] == rest;
    }
  }

  lemma {:induction false} SplitPlain(head: string, tail: string)
    requires '/' !in head
    ensures Split(head + tail) == [head + Split(tail)[0]] + Split(tail)[1..]
  {
    if head == "" {
      assert head + tail == tail && head + Split(tail)[0] == Split(tail)[0];
      assert [Split(tail)[0]] + Split(tail)[1..] == Split(tail);
    } else {
      assert (head + tail)[1..] == head[1..] + tail;
      SplitPlain(head[1..], tail);
      assert head == [head[0]] + head[1..];
      assert [head[0]] + (head[1..] + Split(tail)[0]) == head + Split(tail)[0];
    }
  }

  lemma {:induction false} JoinAppend(a: seq<string>, b: seq<string>)
    requires a != [] && b != []
    ensures Join(a + b) == Join(a) + "/" + Join(b)
  {
    if |a| == 1 {
      assert (a + b)[1..] == b;
    } else {
      assert (a + b)[1..] == a[1..] + b;
      JoinAppend(a[1..], b);
      assert a[0] + "/" + (Join(a[1..]) + "/" + Join(b)) == (a[0] + "/" + Join(a[1..])) + "/" + Join(b);
    }
  }

  /** Scope is segment containment, never a string prefix: between canonical spellings a path is in
      scope exactly when it is the scope or continues it after a slash. */
  lemma InScopeIff(path: string, scope: string)
    requires Canonical(path) && Canonical(scope)
    ensures InScope(path, scope) <==> path == scope || StartsWith(path, scope + "/")
  {
    hide Split, Kept, Join, IsSpace;
    var p := Split(path);
    var s := Split(scope);
    KeptAll(p);
    KeptAll(s);
    EndsAreNotSlashes(path);
    EndsAreNotSlashes(scope);
    Relative(path);
    Relative(scope);
    JoinSplit(path);
    JoinSplit(scope);
    if |s| <= |p| && p[..|s|] == s {
      assert p == s + p[|s|..];
      if |s| < |p| {
        JoinAppend(s, p[|s|..]);
        assert path == (scope + "/") + Join(p[|s|..]);
      } else {
        assert p == s;
      }
    }
    if StartsWith(path, scope + "/") {
      var rest := path[|scope| + 1..];
      assert path == scope + "/" + rest;
      JoinSplit(rest);
      JoinAppend(s, Split(rest));
      SplitJoin(s + Split(rest));
      assert p == s + Split(rest);
    }
    if scope == "" || scope == "." { DotIsNotCanonical(); }
  }

  ghost predicate Called(path: string, name: string) {
    path == name || exists directory :: path == directory + "/" + name
  }

  /** A control file is one of the two names, in whatever directory. */
  lemma ControlFileIff(path: string)
    requires Canonical(path)
    ensures IsControlFile(path) <==> Called(path, "graph.json") || Called(path, "ledger.json")
  {
    hide Split, Kept, Join, Trimmed;
    KeptAll(Split(path));
    JoinSplit(path);
    NameIff(path, "graph.json");
    NameIff(path, "ledger.json");
  }

  lemma NameIff(path: string, name: string)
    requires Tail(path) == Split(path) && name != "" && '/' !in name
    ensures Name(path) == name <==> Called(path, name)
  {
    hide Split, Kept, Join, Tail;
    var segments := Split(path);
    JoinSplit(path);
    SplitPlain(name, "");
    SplitSlash("");
    assert name + "" == name && Split(name) == [name];
    JoinSplit(name);
    if segments[|segments| - 1] == name {
      var rest := segments[..|segments| - 1];
      assert segments == rest + [name];
      if rest != [] {
        JoinAppend(rest, [name]);
        assert path == Join(rest) + "/" + name;
      }
    }
    if directory :| path == directory + "/" + name {
      JoinSplit(directory);
      JoinAppend(Split(directory), [name]);
      SplitJoin(Split(directory) + [name]);
    }
  }

  lemma DotIsNotCanonical()
    ensures !Canonical("") && !Canonical(".")
  {
    assert "."[1..] == "" && ['.'] + "" == "." && Split(".") == ["."];
    assert "." in Split(".");
  }
}
