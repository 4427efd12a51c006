/** Object paths (mudd/src/objects/path.rs) and the prefix rule of path grants
    (mudd/src/permissions/mod.rs:146-158). */
module ObjectPaths {
  import opened Wrappers
  import opened Text

  datatype PathError =
    | Empty
    | MissingLeadingSlash
    | TooLong
    | EmptySegment
    | InvalidSegment(segment: string)
    | SegmentStartsWithNonLetter(segment: string)

  const MAX_LENGTH := 255

  /** `str::split('/')`: never empty, and one more piece than there are slashes. */
  function Split(s: string): (pieces: seq<string>)
    ensures pieces != []
  {
    if s == "" then [""]
    else
      var rest := Split(s[1..]);
      if s[0] == '/' then [""] + rest else [[s[0]] + rest[0]] + rest[1..]
  }

  predicate IsLetter(c: char) { 'a' <= c <= 'z' }

  predicate IsSegmentChar(c: char) { IsLetter(c) || '0' <= c <= '9' || c == '-' }

  predicate MatchesSegment(s: string) {
    s != "" && IsLetter(s[0]) && forall i | 0 < i < |s| :: IsSegmentChar(s[i])
  }

  function FirstBadSegment(segments: seq<string>): Option<PathError> {
    if segments == [] then None
    else if segments[0] == "" || !IsLetter(segments[0][0]) then Some(SegmentStartsWithNonLetter(segments[0]))
    else if !MatchesSegment(segments[0]) then Some(InvalidSegment(segments[0]))
    else FirstBadSegment(segments[1..])
  }

  function ValidateObjectPath(path: string): Result<string, PathError> {
    if path == "" then Err(Empty)
    else
      var normalized := Lower(path);
      if normalized[0] != '/' then Err(MissingLeadingSlash)
      else if Utf8Length(normalized) > MAX_LENGTH then Err(TooLong)
      else
        var segments := Split(normalized[1..]);
        if "" in segments then Err(EmptySegment)
        else
          match FirstBadSegment(segments)
          case Some(e) => Err(e)
          case None => Ok(normalized)
  }

  /** `rfind('/')`. */
  function LastSlash(s: string): Option<nat> { FindLast(s, '/') }

  function ParentPath(path: string): Option<string> {
    var at := LastSlash(path);
    if at.Some? && at.value > 0 then Some(path[..at.value]) else None
  }

  function PathName(path: string): string {
    var at := LastSlash(path);
    if at.Some? then path[at.value + 1..] else path
  }

  predicate Covers(prefix: string, path: string) {
    path == prefix || (prefix <= path && path[|prefix|..] != "" && path[|prefix|..][0] == '/')
  }

  // ----- Covering is a partial order on all strings -----

  lemma CoversTransitive(a: string, b: string, c: string)
    requires Covers(a, b) && Covers(b, c)
    ensures Covers(a, c)
  {
    if a != b && b != c {
      assert c[|a|] == b[|a|] == '/';
    }
  }

  lemma CoversAntisymmetric(a: string, b: string)
    requires Covers(a, b) && Covers(b, a)
    ensures a == b
  {
  }

  // ----- Paths as lists of segments -----

  function Render(segments: seq<string>): string {
    if segments == [] then "" else "/" + segments[0] + Render(segments[1..])
  }

  function Segments(path: string): seq<string> {
    if path == "" then [] else Split(path[1..])
  }

  ghost predicate Plain(segments: seq<string>) {
    forall i | 0 <= i < |segments| :: '/' !in segments[i]
  }

  lemma RenderCons(head: string, tail: seq<string>)
    ensures Render([head] + tail) == "/" + head + Render(tail)
  {
    assert ([head] + tail)[1..] == tail;
  }

  lemma PushFront(c: char, head: string, more: string, text: string)
    requires "/" + head + more == "/" + text
    ensures "/" + ([c] + head) + more == "/" + ([c] + text)
  {
    assert ("/" + head + more)[1..] == head + more;
    assert ("/" + text)[1..] == text;
    assert "/" + ([c] + head) + more == "/" + ([c] + (head + more));
  }

  lemma {:induction false} RenderSplit(s: string)
    ensures Render(Split(s)) == "/" + s
  {
    if s == "" {
      RenderCons("", []);
    } else {
      var rest := Split(s[1..]);
      RenderSplit(s[1..]);
      if s[0] == '/' {
        RenderCons("", rest);
      } else {
        RenderCons([s[0]] + rest[0], rest[1..]);
        PushFront(s[0], rest[0], Render(rest[1..]), s[1..]);
      }
      assert [s[0]] + s[1..] == s;
    }
  }

  lemma {:induction false} SplitIsPlain(s: string)
    ensures Plain(Split(s))
  {
    if s != "" { SplitIsPlain(s[1..]); }
  }

  lemma {:induction false} SplitHead(head: string, tail: string)
    requires '/' !in head
    ensures Split(head) == [head]
    ensures Split(head + "/" + tail) == [head] + Split(tail)
    decreases |head|
  {
    if head == "" {
      assert (head + "/" + tail)[1..] == tail;
    } else {
      SplitHead(head[1..], tail);
      assert head == [head[0]] + head[1..];
      assert (head + "/" + tail)[1..] == head[1..] + "/" + tail;
    }
  }

  lemma SlashAfterHead(head: string, more: string)
    ensures ("/" + head + ("/" + more))[1..] == head + "/" + more
  {
  }

  lemma {:induction false} SplitRender(segments: seq<string>)
    requires Plain(segments) && segments != []
    ensures Segments(Render(segments)) == segments
    decreases |segments|
  {
    if |segments| == 1 {
      SplitHead(segments[0], "");
      assert Render(segments)[1..] == segments[0];
    } else {
      SplitRender(segments[1..]);
      var more := Render(segments[1..])[1..];
      assert Render(segments[1..]) == "/" + more by { assert Render(segments[1..])[0] == '/'; }
      SplitHead(segments[0], more);
      SlashAfterHead(segments[0], more);
    }
  }

  lemma {:induction false} RenderConcat(xs: seq<string>, ys: seq<string>)
    ensures Render(xs + ys) == Render(xs) + Render(ys)
    decreases |xs|
  {
    if xs == [] {
      assert xs + ys == ys;
    } else {
      RenderConcat(xs[1..], ys);
      assert (xs + ys)[1..] == xs[1..] + ys;
    }
  }

  /** Any text that starts with a slash is the rendering of its segments. */
  lemma RenderSegments(path: string)
    requires path != "" && path[0] == '/'
    ensures Render(Segments(path)) == path && Plain(Segments(path)) && Segments(path) != []
  {
    RenderSplit(path[1..]);
    SplitIsPlain(path[1..]);
  }

  // ----- What validation accepts -----

  ghost predicate GoodSegments(segments: seq<string>) {
    segments != [] && forall i | 0 <= i < |segments| :: MatchesSegment(segments[i])
  }

  /** The grammar: at most 255 characters, one or more segments of the allowed form. */
  ghost predicate IsPath(path: string) {
    |path| <= MAX_LENGTH && exists segments :: GoodSegments(segments) && path == Render(segments)
  }

  lemma {:induction false} FirstBadIff(segments: seq<string>)
    ensures FirstBadSegment(segments).None? <==> forall i | 0 <= i < |segments| :: MatchesSegment(segments[i])
  {
    if segments != [] {
      FirstBadIff(segments[1..]);
      assert forall i | 0 < i < |segments| :: segments[i] == segments[1..][i - 1];
    }
  }

  lemma GoodIsPlain(segments: seq<string>)
    requires GoodSegments(segments)
    ensures Plain(segments) && "" !in segments
  {
    forall i | 0 <= i < |segments| ensures '/' !in segments[i] {
      assert MatchesSegment(segments[i]);
    }
  }

  lemma {:induction false} RenderIsLower(segments: seq<string>)
    requires forall i | 0 <= i < |segments| :: MatchesSegment(segments[i])
    ensures forall k | 0 <= k < |Render(segments)| ::
              Render(segments)[k] as int < 0x80 && LowerChar(Render(segments)[k]) == Render(segments)[k]
    decreases |segments|
  {
    if segments != [] {
      RenderIsLower(segments[1..]);
      assert MatchesSegment(segments[0]);
    }
  }

  lemma ValidateIff(path: string)
    ensures ValidateObjectPath(path).Ok? <==> IsPath(Lower(path))
    ensures ValidateObjectPath(path).Ok? ==> ValidateObjectPath(path).value == Lower(path)
    ensures ValidateObjectPath(path).Ok? ==> GoodSegments(Segments(Lower(path)))
  {
    var n := Lower(path);
    if path != "" && n[0] == '/' {
      RenderSegments(n);
      FirstBadIff(Segments(n));
      assert ValidateObjectPath(path).Ok? ==> GoodSegments(Segments(n));
      if GoodSegments(Segments(n)) {
        RenderIsLower(Segments(n));
        AsciiLength(n);
      }
    }
    if segments :| GoodSegments(segments) && n == Render(segments) {
      GoodIsPlain(segments);
      SplitRender(segments);
      RenderIsLower(segments);
      AsciiLength(n);
    }
  }

  ghost predicate FirstBadAt(segments: seq<string>, i: nat) {
    i < |segments| && !MatchesSegment(segments[i]) && forall j | 0 <= j < i :: MatchesSegment(segments[j])
  }

  lemma {:induction false} FirstBadIsFirst(segments: seq<string>, i: nat)
    requires FirstBadAt(segments, i)
    ensures FirstBadSegment(segments)
         == Some(if segments[i] == "" || !IsLetter(segments[i][0]) then SegmentStartsWithNonLetter(segments[i])
                 else InvalidSegment(segments[i]))
  {
    if i > 0 { FirstBadIsFirst(segments[1..], i - 1); }
  }

  /** Why a path is refused, the first reason that applies: it is empty, does not start with a slash, is longer than 255
      bytes, or has an empty segment; and then by the first segment that does not fit, which begins with no letter, or
      has a character that may not be there. */
  lemma RefusedBecause(path: string, i: nat)
    ensures var n, segments := Lower(path), Segments(Lower(path));
            ValidateObjectPath(path).Err? ==>
              var e := ValidateObjectPath(path).error;
              if path == "" then e == Empty
              else if n[0] != '/' then e == MissingLeadingSlash
              else if Utf8Length(n) > 255 then e == TooLong
              else if "" in segments then e == EmptySegment
              else FirstBadAt(segments, i) ==>
                     if 'a' <= segments[i][0] <= 'z' then e == InvalidSegment(segments[i])
                     else e == SegmentStartsWithNonLetter(segments[i])
  {
    var segments := Segments(Lower(path));
    if FirstBadAt(segments, i) { FirstBadIsFirst(segments, i); }
  }

  const LETTERS := "abcdefghijklmnopqrstuvwxyz"
  const OTHERS := "0123456789-"

  /** A segment begins with a small letter and goes on with small letters, digits and hyphens. */
  predicate WellFormed(segment: string) {
    && segment != "" && segment[0] in LETTERS
    && forall i | 0 <= i < |segment| :: segment[i] in LETTERS || segment[i] in OTHERS
  }

  lemma LetterIff(c: char)
    ensures IsLetter(c) <==> c in LETTERS
  {
    if IsLetter(c) { assert LETTERS[c as int - 'a' as int] == c; }
  }

  lemma SegmentCharIff(c: char)
    ensures IsSegmentChar(c) <==> c in LETTERS || c in OTHERS
  {
    LetterIff(c);
    hide IsLetter;
    if '0' <= c <= '9' { assert OTHERS[c as int - '0' as int] == c; }
    if c == '-' { assert OTHERS[10] == c; }
  }

  lemma WellFormedIff(segment: string)
    ensures MatchesSegment(segment) <==> WellFormed(segment)
  {
    hide IsLetter, IsSegmentChar;
    if segment != "" {
      LetterIff(segment[0]);
      forall i | 0 <= i < |segment|
        ensures IsSegmentChar(segment[i]) <==> segment[i] in LETTERS || segment[i] in OTHERS
      {
        SegmentCharIff(segment[i]);
      }
    }
  }

  /** The same in the words of the documentation: what is accepted is at most 255 bytes of slashes, each before a
      well-formed segment. */
  lemma AcceptsIff(path: string)
    ensures ValidateObjectPath(path).Ok?
            <==> exists segments :: segments != [] && Render(segments) == Lower(path) && |Lower(path)| <= 255
                                    && forall i | 0 <= i < |segments| :: WellFormed(segments[i])
  {
    ValidateIff(path);
    hide ValidateObjectPath, Lower, MatchesSegment, WellFormed, Render;
    forall segment ensures MatchesSegment(segment) <==> WellFormed(segment) { WellFormedIff(segment); }
  }

  lemma LowerOfGood(path: string)
    requires IsPath(path)
    ensures Lower(path) == path
  {
    var segments :| GoodSegments(segments) && path == Render(segments);
    RenderIsLower(segments);
  }

  /** A normalized path is accepted again, unchanged. */
  lemma ValidateIdempotent(path: string)
    requires ValidateObjectPath(path).Ok?
    ensures ValidateObjectPath(ValidateObjectPath(path).value) == ValidateObjectPath(path)
  {
    ValidateIff(path);
    LowerOfGood(Lower(path));
    ValidateIff(Lower(path));
  }

  // ----- Parents and names -----

  ghost predicate Valid(path: string) { ValidateObjectPath(path) == Ok(path) }

  lemma ValidSegments(path: string)
    requires Valid(path)
    ensures path != "" && path[0] == '/' && |path| <= MAX_LENGTH
    ensures GoodSegments(Segments(path)) && Plain(Segments(path)) && Render(Segments(path)) == path
  {
    ValidateIff(path);
    GoodIsPlain(Segments(path));
    RenderSegments(path);
  }

  lemma SegmentsValid(segments: seq<string>)
    requires GoodSegments(segments) && |Render(segments)| <= MAX_LENGTH
    ensures Valid(Render(segments)) && Segments(Render(segments)) == segments
  {
    assert IsPath(Render(segments));
    LowerOfGood(Render(segments));
    ValidateIff(Render(segments));
    GoodIsPlain(segments);
    SplitRender(segments);
  }

  lemma {:induction false} LastSlashBefore(s: string, name: string)
    requires '/' !in name
    ensures LastSlash(s + "/" + name) == Some(|s|)
    decreases |name|
  {
    var path := s + "/" + name;
    if name != "" {
      var n := |name| - 1;
      assert path[|path| - 1] == name[n];
      assert path[..|path| - 1] == s + "/" + name[..n];
      LastSlashBefore(s, name[..n]);
    }
  }

  lemma ParentOfJoin(parent: string, name: string)
    requires '/' !in name
    ensures PathName(parent + "/" + name) == name
    ensures ParentPath(parent + "/" + name) == if parent == "" then None else Some(parent)
  {
    LastSlashBefore(parent, name);
    var path := parent + "/" + name;
    assert path[..|parent|] == parent && path[|parent| + 1..] == name;
  }

  lemma Regroup(a: string, b: string, c: string)
    ensures a + (b + "/" + c) == a + b + "/" + c
  {
  }

  lemma {:induction false} RenderSnoc(segments: seq<string>)
    requires segments != []
    ensures var n := |segments| - 1; Render(segments) == Render(segments[..n]) + "/" + segments[n]
    decreases |segments|
  {
    var n := |segments| - 1;
    if n > 0 {
      RenderSnoc(segments[1..]);
      assert segments[..n][1..] == segments[1..][..n - 1];
      Regroup("/" + segments[0], Render(segments[1..][..n - 1]), segments[n]);
    }
  }

  lemma ParentOfRender(segments: seq<string>)
    requires Plain(segments) && segments != []
    ensures var n := |segments| - 1;
            var path := Render(segments);
            && PathName(path) == segments[n]
            && ParentPath(path) == (if n == 0 then None else Some(Render(segments[..n])))
            && path == Render(segments[..n]) + "/" + segments[n]
  {
    var n := |segments| - 1;
    RenderSnoc(segments);
    ParentOfJoin(Render(segments[..n]), segments[n]);
    assert n > 0 ==> Render(segments[..n]) != "";
  }

  /** The parent drops the last segment, the name is the last segment, and the two give the path back. */
  lemma ParentOfValid(path: string)
    requires Valid(path)
    ensures var segments := Segments(path);
            var n := |segments| - 1;
            && PathName(path) == segments[n]
            && (n == 0 ==> ParentPath(path) == None)
            && (n > 0 ==> ParentPath(path) == Some(Render(segments[..n])))
    ensures ParentPath(path).Some? ==>
              var parent := ParentPath(path).value;
              && parent + "/" + PathName(path) == path
              && Valid(parent)
              && Segments(parent) == Segments(path)[..|Segments(path)| - 1]
  {
    ValidSegments(path);
    var segments := Segments(path);
    ParentOfRender(segments);
    if |segments| > 1 { SegmentsValid(segments[..|segments| - 1]); }
  }

  // ----- Three notions of coverage agree -----

  lemma CoversRender(a: seq<string>, b: seq<string>)
    requires Plain(a) && Plain(b) && a != [] && b != []
    ensures Covers(Render(a), Render(b)) <==> a <= b
  {
    var prefix, path := Render(a), Render(b);
    if a <= b {
      assert b == a + b[|a|..];
      RenderConcat(a, b[|a|..]);
      assert path[|prefix|..] == Render(b[|a|..]);
    } else if Covers(prefix, path) {
      var tail := path[|prefix|..];
      if prefix == path {
        SplitRender(a);
        SplitRender(b);
      } else {
        RenderSegments(tail);
        RenderConcat(a, Segments(tail));
        assert path == prefix + tail;
        SplitRender(a + Segments(tail));
        SplitRender(b);
      }
    }
  }

  lemma CoversIffSegmentPrefix(prefix: string, path: string)
    requires Valid(prefix) && Valid(path)
    ensures Covers(prefix, path) <==> Segments(prefix) <= Segments(path)
  {
    ValidSegments(prefix);
    ValidSegments(path);
    CoversRender(Segments(prefix), Segments(path));
  }

  /** `parent_path` applied k times. */
  function Ancestor(path: string, k: nat): Option<string> {
    if k == 0 then Some(path)
    else
      match ParentPath(path)
      case None => None
      case Some(parent) => Ancestor(parent, k - 1)
  }

  lemma {:induction false} AncestorOfRender(segments: seq<string>, k: nat)
    requires Plain(segments) && segments != []
    ensures Ancestor(Render(segments), k)
            == if k < |segments| then Some(Render(segments[..|segments| - k])) else None
    decreases k
  {
    var n := |segments|;
    ParentOfRender(segments);
    if k == 0 {
      assert segments[..n] == segments;
    } else if n > 1 {
      AncestorOfRender(segments[..n - 1], k - 1);
      if k < n { assert segments[..n - 1][..n - k] == segments[..n - k]; }
    }
  }

  lemma AncestorIffPrefix(a: seq<string>, b: seq<string>)
    requires Plain(a) && Plain(b) && a != [] && b != []
    ensures (exists k: nat :: Ancestor(Render(b), k) == Some(Render(a))) <==> a <= b
  {
    if a <= b {
      AncestorOfRender(b, |b| - |a|);
      assert b[..|a|] == a;
      assert Ancestor(Render(b), |b| - |a|) == Some(Render(a));
    }
    if k: nat :| Ancestor(Render(b), k) == Some(Render(a)) {
      AncestorOfRender(b, k);
      SplitRender(b[..|b| - k]);
      SplitRender(a);
    }
  }

  lemma CoversIffAncestor(prefix: string, path: string)
    requires Valid(prefix) && Valid(path)
    ensures Covers(prefix, path) <==> exists k: nat :: Ancestor(path, k) == Some(prefix)
  {
    ValidSegments(prefix);
    ValidSegments(path);
    AncestorIffPrefix(Segments(prefix), Segments(path));
    CoversRender(Segments(prefix), Segments(path));
  }

  /** Outside validated paths the notions part: the prefix "/" is no ancestor in the grammar, and it covers
      no path of the form "/" + name. */
  lemma RootPrefixCoversNothing(path: string)
    requires Valid(path)
    ensures !Covers("/", path) && Covers("", path)
  {
    ValidSegments(path);
    assert MatchesSegment(Segments(path)[0]);
    assert path == "/" + Segments(path)[0] + Render(Segments(path)[1..]);
    assert path[1] == Segments(path)[0][0];
  }
}
