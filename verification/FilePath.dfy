/** Relative paths, and the normal form that a path from outside is given before it is opened. */
module FilePath {

  type Str = seq<char>

  const MAX_PATH_LEN: nat := 512

  // ---------------------------------------------------------------- components

  /** The components of a path: what stands between its slashes. */
  function Split(s: Str): (r: seq<Str>)
    ensures r != []
  {
    if s == [] then [[]]
    else
      var rest := Split(s[1..]);
      if s[0] == '/' then [[]] + rest else [[s[0]] + rest[0]] + rest[1..]
  }

  function Join(parts: seq<Str>): Str {
    if parts == [] then []
    else if |parts| == 1 then parts[0]
    else parts[0] + ['/'] + Join(parts[1..])
  }

  predicate IsName(part: Str) {
    part != "" && part != "."
  }

  /** Neither nothing nor a single dot. */
  lemma NameExactly(part: Str)
    ensures IsName(part) <==> 0 < |part| && !(|part| == 1 && part[0] == '.')
  {
  }

  /** The components that name something. */
  function Names(parts: seq<Str>): seq<Str> {
    if parts == [] then []
    else if IsName(parts[0]) then [parts[0]] + Names(parts[1..])
    else Names(parts[1..])
  }

  function Normal(s: Str): Str {
    Join(Names(Split(s)))
  }

  /** Some component leads up. */
  predicate Climbs(parts: seq<Str>) {
    ".." in parts
  }

  predicate Acceptable(s: Str) {
    && 0 < |s| <= MAX_PATH_LEN
    && s[0] != '/' && s[|s| - 1] != '/'
    && '\0' !in s
    && !Climbs(Split(s))
    && Names(Split(s)) != []
  }

  ghost predicate SlashFree(parts: seq<Str>) {
    forall i :: 0 <= i < |parts| ==> '/' !in parts[i]
  }

  /** Which paths are accepted, in terms of characters and their positions alone. */
  lemma AcceptableExactly(s: Str)
    ensures Acceptable(s) <==>
            && 0 < |s| < 513 && s[0] != '/' && s[|s| - 1] != '/' && '\0' !in s
            && (forall i: nat, j: nat :: ComponentAt(s, i, j) ==> s[i..j] != "..")
            && (exists i: nat, j: nat :: ComponentAt(s, i, j) && s[i..j] != "" && s[i..j] != ".")
  {
    hide Split, Names;
    NamesExist(Split(s));
    ComponentsExactly(s, "..");
    if Names(Split(s)) != [] {
      var i :| 0 <= i < |Split(s)| && Split(s)[i] != "" && Split(s)[i] != ".";
      ComponentsExactly(s, Split(s)[i]);
    }
    if i: nat, j: nat :| ComponentAt(s, i, j) && s[i..j] != "" && s[i..j] != "." {
      ComponentIsPart(s, i, j);
      var k :| 0 <= k < |Split(s)| && Split(s)[k] == s[i..j];
    }
  }

  lemma {:induction false} NamesExist(parts: seq<Str>)
    ensures Names(parts) != [] <==> exists i :: 0 <= i < |parts| && parts[i] != "" && parts[i] != "."
  {
    if parts != [] {
      NamesExist(parts[1..]);
      if i :| 0 <= i < |parts[1..]| && parts[1..][i] != "" && parts[1..][i] != "." {
        assert parts[i + 1] == parts[1..][i];
      }
      if i :| 0 < i < |parts| && parts[i] != "" && parts[i] != "." {
        assert parts[1..][i - 1] == parts[i];
      }
    }
  }

  /** Where a path leads from a directory, given as the names on the way to it. */
  function Walk(at: seq<Str>, parts: seq<Str>): seq<Str>
    decreases |parts|
  {
    if parts == [] then at
    else if !IsName(parts[0]) then Walk(at, parts[1..])
    else if parts[0] == ".." then Walk(if at == [] then [] else at[..|at| - 1], parts[1..])
    else Walk(at + [parts[0]], parts[1..])
  }

  // ---------------------------------------------------------------- splitting and joining

  lemma {:induction false} SplitIsSlashFree(s: Str)
    ensures SlashFree(Split(s))
  {
    if s != [] {
      SplitIsSlashFree(s[1..]);
    }
  }

  /** Splitting a path loses nothing. */
  lemma {:induction false} JoinSplit(s: Str)
    ensures Join(Split(s)) == s
  {
    if s != [] {
      JoinSplit(s[1..]);
      var rest := Split(s[1..]);
      if s[0] == '/' {
        assert Split(s)[1..] == rest;
      } else {
        assert Split(s)[1..] == rest[1..];
      }
    }
  }

  /** The first component ends at the first slash. */
  lemma {:induction false} SplitAt(s: Str, end: nat)
    requires end <= |s| && '/' !in s[..end] && (end < |s| ==> s[end] == '/')
    ensures Split(s) == [s[..end]] + if end < |s| then Split(s[end + 1..]) else []
    decreases end
  {
    if end > 0 {
      assert s[1..][..end - 1] == s[..end][1..];
      assert end < |s| ==> s[1..][end..] == s[end + 1..];
      assert s[0] == s[..end][0];
      SplitAt(s[1..], end - 1);
      assert [s[0]] + s[1..][..end - 1] == s[..end];
    }
  }

  /** Joining components loses nothing. */
  /** From `i` to `j` stands what is between two slashes, or between one and an end of the path. */
  predicate ComponentAt(s: Str, i: nat, j: nat) {
    && i <= j <= |s| && (forall k :: i <= k < j ==> s[k] != '/')
    && (i == 0 || s[i - 1] == '/') && (j == |s| || s[j] == '/')
  }

  lemma SlashOrEnd(s: Str) returns (end: nat)
    ensures end <= |s| && (forall k :: 0 <= k < end ==> s[k] != '/') && (end == |s| || s[end] == '/')
  {
    end := 0;
    while end < |s| && s[end] != '/'
      invariant end <= |s| && forall k :: 0 <= k < end ==> s[k] != '/'
    {
      end := end + 1;
    }
  }

  lemma {:induction false} PartIsComponent(s: Str, part: Str) returns (i: nat, j: nat)
    requires part in Split(s)
    ensures ComponentAt(s, i, j) && s[i..j] == part
    decreases |s|
  {
    hide Split;
    var end := SlashOrEnd(s);
    SplitAt(s, end);
    if part == s[..end] {
      i, j := 0, end;
    } else {
      var rest := s[end + 1..];
      var i', j' := PartIsComponent(rest, part);
      i, j := i' + end + 1, j' + end + 1;
      assert s[i..j] == rest[i'..j'];
      assert i' > 0 ==> s[i - 1] == rest[i' - 1];
    }
  }

  lemma {:induction false} ComponentIsPart(s: Str, i: nat, j: nat)
    requires ComponentAt(s, i, j)
    ensures s[i..j] in Split(s)
    decreases |s|
  {
    hide Split;
    var end := SlashOrEnd(s);
    SplitAt(s, end);
    if i == 0 {
      assert s[..end] == s[i..j];
    } else {
      LaterComponent(s, end, i, j);
      ComponentIsPart(s[end + 1..], i - end - 1, j - end - 1);
    }
  }

  /** The components of a path, in terms of positions alone. */
  lemma ComponentsExactly(s: Str, part: Str)
    ensures part in Split(s) <==> exists i: nat, j: nat :: ComponentAt(s, i, j) && s[i..j] == part
  {
    if part in Split(s) {
      var i, j := PartIsComponent(s, part);
    }
    if i: nat, j: nat :| ComponentAt(s, i, j) && s[i..j] == part {
      ComponentIsPart(s, i, j);
    }
  }

  lemma LaterComponent(s: Str, end: nat, i: nat, j: nat)
    requires ComponentAt(s, 0, end) && ComponentAt(s, i, j) && 0 < i
    ensures end < i && end < |s| && ComponentAt(s[end + 1..], i - end - 1, j - end - 1)
    ensures s[end + 1..][i - end - 1..j - end - 1] == s[i..j]
  {
    assert s[end + 1..][i - end - 1..j - end - 1] == s[i..j];
  }

  lemma {:induction false} SplitJoin(parts: seq<Str>)
    requires parts != [] && SlashFree(parts)
    ensures Split(Join(parts)) == parts
  {
    var s, end := Join(parts), |parts[0]|;
    assert s[..end] == parts[0];
    if |parts| > 1 {
      SplitJoin(parts[1..]);
      assert s[end + 1..] == Join(parts[1..]);
    }
    SplitAt(s, end);
  }

  // ---------------------------------------------------------------- names

  lemma {:induction false} JoinSnoc(parts: seq<Str>, part: Str)
    ensures Join(parts + [part]) == if parts == [] then part else Join(parts) + ['/'] + part
  {
    if parts != [] {
      JoinSnoc(parts[1..], part);
      assert (parts + [part])[1..] == parts[1..] + [part];
      assert parts[1..] == [] ==> Join(parts + [part]) == Join(parts) + ['/'] + part;
    }
  }

  lemma {:induction false} NamesAreParts(parts: seq<Str>)
    ensures forall n :: n in Names(parts) <==> n in parts && IsName(n)
    ensures SlashFree(parts) ==> SlashFree(Names(parts))
  {
    if parts != [] {
      NamesAreParts(parts[1..]);
      assert parts == [parts[0]] + parts[1..];
    }
  }

  lemma {:induction false} NamesOfNames(parts: seq<Str>)
    ensures Names(Names(parts)) == Names(parts)
  {
    if parts != [] {
      NamesOfNames(parts[1..]);
      if IsName(parts[0]) {
        assert Names(parts)[1..] == Names(parts[1..]);
      }
    }
  }

  lemma {:induction false} JoinIsShorter(parts: seq<Str>)
    ensures |Join(Names(parts))| <= |Join(parts)|
    ensures Names(parts) == [] ==> Join(Names(parts)) == []
  {
    if parts != [] {
      JoinIsShorter(parts[1..]);
      if IsName(parts[0]) {
        assert Names(parts)[1..] == Names(parts[1..]);
      }
    }
  }

  lemma {:induction false} JoinChars(parts: seq<Str>, c: char)
    requires c != '/' && forall i :: 0 <= i < |parts| ==> c !in parts[i]
    ensures c !in Join(parts)
  {
    if |parts| > 1 {
      JoinChars(parts[1..], c);
    }
  }

  lemma {:induction false} SplitChars(s: Str, c: char)
    requires c !in s
    ensures forall i :: 0 <= i < |Split(s)| ==> c !in Split(s)[i]
  {
    if s != [] {
      SplitChars(s[1..], c);
    }
  }

  lemma {:induction false} JoinEnds(parts: seq<Str>)
    requires parts != [] && SlashFree(parts) && forall i :: 0 <= i < |parts| ==> parts[i] != ""
    ensures var s := Join(parts); s != [] && s[0] != '/' && s[|s| - 1] != '/'
  {
    assert parts[0][0] in parts[0];
    if |parts| > 1 {
      JoinEnds(parts[1..]);
    } else {
      assert parts[0][|parts[0]| - 1] in parts[0];
    }
  }

  // ---------------------------------------------------------------- normal form

  /** The components of the normal form are the components that name something. */
  lemma NormalParts(s: Str)
    requires Acceptable(s)
    ensures Split(Normal(s)) == Names(Split(s))
  {
    SplitIsSlashFree(s);
    NamesAreParts(Split(s));
    SplitJoin(Names(Split(s)));
  }

  /** The normal form of an acceptable path is acceptable, no longer, and its own normal form. */
  lemma NormalIsNormal(s: Str)
    requires Acceptable(s)
    ensures Acceptable(Normal(s)) && Normal(Normal(s)) == Normal(s)
    ensures |Normal(s)| <= |s|
  {
    var names := Names(Split(s));
    NormalParts(s);
    NamesOfNames(Split(s));
    NamesAreParts(Split(s));
    SplitIsSlashFree(s);
    assert forall i :: 0 <= i < |names| ==> names[i] in names;
    JoinEnds(names);
    JoinIsShorter(Split(s));
    JoinSplit(s);
    SplitChars(s, '\0');
    assert forall i :: 0 <= i < |names| ==> names[i] in Split(s);
    JoinChars(names, '\0');
  }

  /** Without a ".." component, a path leads down from where it starts, by its names. */
  lemma {:induction false} WalkGoesDown(at: seq<Str>, parts: seq<Str>)
    requires !Climbs(parts)
    ensures Walk(at, parts) == at + Names(parts)
    decreases |parts|
  {
    if parts == [] {
      assert at + [] == at;
    } else {
      assert parts[0] in parts;
      assert forall p :: p in parts[1..] ==> p in parts;
      if IsName(parts[0]) {
        WalkGoesDown(at + [parts[0]], parts[1..]);
        assert at + [parts[0]] + Names(parts[1..]) == at + Names(parts);
      } else {
        WalkGoesDown(at, parts[1..]);
      }
    }
  }

  /** The normal form of an acceptable path leads to the same place, strictly below the start. */
  lemma NormalLeadsToSame(at: seq<Str>, s: Str)
    requires Acceptable(s)
    ensures Walk(at, Split(Normal(s))) == Walk(at, Split(s))
    ensures at < Walk(at, Split(s))
  {
    NormalParts(s);
    NamesAreParts(Split(s));
    NamesOfNames(Split(s));
    WalkGoesDown(at, Split(s));
    WalkGoesDown(at, Names(Split(s)));
  }

  // ---------------------------------------------------------------- the program

  /** The first position of `c` from `start` on, or the length of the string. */
  method FindFirst(s: Str, start: nat, c: char) returns (pos: nat)
    requires start <= |s|
    ensures start <= pos <= |s| && c !in s[start..pos] && (pos < |s| ==> s[pos] == c)
  {
    pos := start;
    while pos < |s| && s[pos] != c
      invariant start <= pos <= |s| && c !in s[start..pos]
    {
      pos := pos + 1;
    }
  }

  method Copy(buf: array<char>, out: nat, s: Str)
    requires out + |s| <= buf.Length
    modifies buf
    ensures buf[..out + |s|] == old(buf[..out]) + s
  {
    forall k | 0 <= k < |s| {
      buf[out + k] := s[k];
    }
  }

  /**
   * Accepts exactly the acceptable paths, and leaves the normal form of an accepted one in the buffer,
   * terminated.
   */
  method Init(buf: array<char>, s: Str) returns (ok: bool)
    requires buf.Length == MAX_PATH_LEN + 1
    modifies buf
    ensures ok == Acceptable(s)
    ensures ok ==> |Normal(s)| < buf.Length
                   && buf[..|Normal(s)|] == Normal(s) && buf[|Normal(s)|] == '\0' && '\0' !in Normal(s)
  {
    if |s| == 0 || |s| > MAX_PATH_LEN {
      return false;
    }
    if s[0] == '/' || s[|s| - 1] == '/' {
      return false;
    }
    var nul := FindFirst(s, 0, '\0');
    if nul < |s| {
      return false;
    }
    assert s[0..|s|] == s;
    var out;
    ok, out := CopyNames(buf, s);
    if ok {
      buf[out] := '\0';
      NormalIsNormal(s);
    }
  }

  /** Appends a name, after a slash unless it is the first. */
  method AppendName(buf: array<char>, out: nat, part: Str, ghost names: seq<Str>) returns (out': nat)
    requires out + 1 + |part| <= buf.Length && part != ""
    requires buf[..out] == Join(names) && (out == 0 <==> names == [])
    modifies buf
    ensures out' == out + |part| + (if out > 0 then 1 else 0) && out' <= buf.Length
    ensures buf[..out'] == Join(names + [part])
  {
    JoinSnoc(names, part);
    out' := out;
    if out > 0 {
      buf[out] := '/';
      out' := out + 1;
      assert buf[..out'] == Join(names) + ['/'];
    }
    Copy(buf, out', part);
    out' := out' + |part|;
  }

  /** The component at `start`, and its end. */
  method NextPart(s: Str, start: nat) returns (end: nat, part: Str)
    requires start < |s| && s[|s| - 1] != '/'
    ensures start <= end <= |s| && end + 1 != |s| && |part| == end - start
    ensures Pending(s, start) == [part] + Pending(s, end + 1)
  {
    end := FindFirst(s, start, '/');
    part := s[start..end];
    SplitNext(s, start, end);
  }

  /** Copies the names of a path one by one. */
  method CopyNames(buf: array<char>, s: Str) returns (ok: bool, out: nat)
    requires buf.Length == MAX_PATH_LEN + 1 && 0 < |s| <= MAX_PATH_LEN && s[|s| - 1] != '/'
    modifies buf
    ensures ok <==> !Climbs(Split(s)) && Names(Split(s)) != []
    ensures ok ==> out < buf.Length && buf[..out] == Normal(s)
  {
    hide Split;
    var start := 0;
    out := 0;
    ghost var names := [];
    assert s[0..] == s;
    while start < |s|
      invariant start != |s|
      invariant Names(Split(s)) == names + Names(Pending(s, start))
      invariant Climbs(Split(s)) <==> Climbs(Pending(s, start))
      invariant out <= start && (out > 0 ==> out < start) && out <= |s|
      invariant buf[..out] == Join(names) && (out == 0 <==> names == [])
      decreases |s| + 1 - start
    {
      var end, part := NextPart(s, start);
      NamesHead(names, part, Pending(s, end + 1));
      if part == ".." {
        return false, out;
      }
      if IsName(part) {
        out := AppendName(buf, out, part, names);
        names := names + [part];
      }
      start := end + 1;
    }
    assert names + [] == names;
    ok := out > 0;
  }

  /** The components that are still to come. */
  function Pending(s: Str, start: nat): seq<Str> {
    if start < |s| then Split(s[start..]) else []
  }

  lemma NamesHead(names: seq<Str>, part: Str, tail: seq<Str>)
    ensures names + Names([part] + tail) == (if IsName(part) then names + [part] else names) + Names(tail)
    ensures Climbs([part] + tail) <==> part == ".." || Climbs(tail)
  {
    assert ([part] + tail)[1..] == tail;
  }

  lemma SplitNext(s: Str, start: nat, end: nat)
    requires start < |s| && s[|s| - 1] != '/'
    requires start <= end <= |s| && '/' !in s[start..end] && (end < |s| ==> s[end] == '/')
    ensures Pending(s, start) == [s[start..end]] + Pending(s, end + 1)
  {
    assert s[start..][..end - start] == s[start..end];
    assert end < |s| ==> s[start..][end - start + 1..] == s[end + 1..];
    SplitAt(s[start..], end - start);
  }
}
