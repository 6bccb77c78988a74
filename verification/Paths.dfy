/** Path strings: cutting them into components from the front, and parent and name from the back. */
module Paths {

  const MAX_NAME: nat := 256
  const MAX_PATH: nat := 1024
  const MAX_PARTS: nat := 32

  type Name = seq<char>

  /** The length of the next component: up to a slash, the end, or the limit on names. */
  function ComponentLength(path: string): (n: nat)
    ensures n <= |path| && n < MAX_NAME && '/' !in path[..n]
    ensures n == |path| || n == MAX_NAME - 1 || path[n] == '/'
  {
    ComponentUpTo(path, MAX_NAME - 1)
  }

  function ComponentUpTo(path: string, limit: nat): (n: nat)
    ensures n <= |path| && n <= limit && '/' !in path[..n]
    ensures n == |path| || n == limit || path[n] == '/'
  {
    if path == "" || path[0] == '/' || limit == 0 then 0 else 1 + ComponentUpTo(path[1..], limit - 1)
  }

  /** The components of a path, a name of more than 255 characters counting as several. */
  function Components(path: string): (parts: seq<Name>)
    decreases |path|
  {
    if path == "" then []
    else if path[0] == '/' then Components(path[1..])
    else [path[..ComponentLength(path)]] + Components(path[ComponentLength(path)..])
  }

  function FirstParts(parts: seq<Name>, max: nat): (r: seq<Name>)
    ensures r <= parts && |r| == if |parts| <= max then |parts| else max
  {
    if |parts| <= max then parts else parts[..max]
  }

  method SkipSlashes(path: string, from: nat) returns (i: nat)
    requires from <= |path|
    ensures from <= i <= |path| && (i < |path| ==> path[i] != '/')
    ensures Components(path[from..]) == Components(path[i..])
  {
    i := from;
    while i < |path| && path[i] == '/'
      invariant from <= i <= |path| && Components(path[from..]) == Components(path[i..])
    {
      assert path[i..][1..] == path[i + 1..];
      i := i + 1;
    }
  }

  method CopyComponent(path: string, from: nat) returns (part: Name, i: nat)
    requires from < |path| && path[from] != '/'
    ensures from < i <= |path| && |part| > 0
    ensures Components(path[from..]) == [part] + Components(path[i..])
  {
    part, i := "", from;
    while i < |path| && path[i] != '/' && |part| < MAX_NAME - 1
      invariant from <= i <= |path| && |part| == i - from < MAX_NAME && part == path[from..i]
      invariant '/' !in part
    {
      part := part + [path[i]];
      i := i + 1;
    }
    ghost var rest := path[from..];
    assert rest[..|part|] == part && rest[|part|..] == path[i..];
    ComponentIs(rest, |part|);
  }

  /** The forward splitter: the first `maxParts` components. */
  method SplitPath(path: string, maxParts: nat) returns (parts: seq<Name>)
    ensures parts == FirstParts(Components(path), maxParts)
  {
    hide Components;
    parts := [];
    var i := 0;
    assert path[0..] == path;
    while i < |path| && |parts| < maxParts
      invariant 0 <= i <= |path| && |parts| <= maxParts
      invariant Components(path) == parts + Components(path[i..])
    {
      i := SkipSlashes(path, i);
      if i >= |path| {
        break;
      }
      var part;
      part, i := CopyComponent(path, i);
      parts := parts + [part];
    }
    if i == |path| {
      NoComponents(path[i..]);
    }
  }

  lemma NoComponents(path: string)
    requires path == ""
    ensures Components(path) == []
  {
  }

  lemma {:induction false} ComponentUpToIs(path: string, n: nat, limit: nat)
    requires n <= |path| && n <= limit && '/' !in path[..n]
    requires n == |path| || n == limit || path[n] == '/'
    ensures ComponentUpTo(path, limit) == n
  {
    if n != 0 {
      assert path[0] == path[..n][0];
      assert path[1..][..n - 1] == path[..n][1..];
      ComponentUpToIs(path[1..], n - 1, limit - 1);
    }
  }

  lemma ComponentIs(path: string, n: nat)
    requires n <= |path| && n < MAX_NAME && '/' !in path[..n]
    requires n == |path| || n == MAX_NAME - 1 || path[n] == '/'
    ensures ComponentLength(path) == n
  {
    ComponentUpToIs(path, n, MAX_NAME - 1);
  }

  // ---- Parent and name.

  /** The position of the last slash, or -1. */
  function LastSlash(path: string): (s: int)
    ensures -1 <= s < |path| && (s >= 0 ==> path[s] == '/')
    ensures forall i :: s < i < |path| ==> path[i] != '/'
  {
    if path == "" then -1
    else if path[|path| - 1] == '/' then |path| - 1
    else LastSlash(path[..|path| - 1])
  }

  function ParentOf(path: string): string {
    if LastSlash(path) <= 0 then "/" else path[..LastSlash(path)]
  }

  /** What follows the last slash, whatever its length. */
  function LastName(path: string): (name: Name)
    ensures '/' !in name
  {
    path[LastSlash(path) + 1..]
  }

  function Cut(name: Name): (r: Name)
    ensures r <= name && |r| == if |name| < 256 then |name| else 255
  {
    if |name| < MAX_NAME then name else name[..MAX_NAME - 1]
  }

  /** The backward splitter: it scans from the end and copies both halves into buffers of fixed size. */
  method SplitParent(path: string) returns (parent: string, name: Name)
    requires |path| < MAX_PATH
    ensures parent == ParentOf(path) && name == Cut(LastName(path)) && |parent| < MAX_PATH
  {
    var slash := -1;
    var i := |path| - 1;
    while i >= 0
      invariant -1 <= i < |path| && slash == -1
      invariant forall k :: i < k < |path| ==> path[k] != '/'
    {
      if path[i] == '/' {
        slash := i;
        break;
      }
      i := i - 1;
    }
    LastSlashIs(path, slash);
    if slash <= 0 {
      parent := "/";
    } else {
      parent := path[..slash];
    }
    name := Cut(path[slash + 1..]);
  }

  lemma LastSlashIs(path: string, s: int)
    requires -1 <= s < |path| && (s >= 0 ==> path[s] == '/')
    requires forall i :: s < i < |path| ==> path[i] != '/'
    ensures LastSlash(path) == s
  {
  }

  // ---- The two splitters agree.

  lemma SlashSkipped(path: string)
    requires path != "" && path[0] == '/'
    ensures Components(path) == Components(path[1..])
  {
  }

  lemma ComponentTaken(path: string, n: nat)
    requires path != "" && path[0] != '/' && n == ComponentLength(path)
    ensures n > 0 && Components(path) == [path[..n]] + Components(path[n..])
  {
  }

  /** A slash separates: the components of the two sides come one after the other. */
  lemma {:induction false} SlashSeparates(a: string, b: string)
    ensures Components(a + "/" + b) == Components(a) + Components(b)
    decreases |a|
  {
    hide Components, ComponentLength;
    var path := a + "/" + b;
    if a == "" {
      assert path[1..] == b;
      SlashSkipped(path);
      NoComponents("");
    } else if a[0] == '/' {
      SlashSeparates(a[1..], b);
      assert path[1..] == a[1..] + "/" + b;
      SlashSkipped(path);
      SlashSkipped(a);
    } else {
      var n := ComponentLength(a);
      assert path[..n] == a[..n] && path[n..] == a[n..] + "/" + b;
      ComponentIs(path, n);
      ComponentTaken(path, n);
      ComponentTaken(a, n);
      SlashSeparates(a[n..], b);
    }
  }

  lemma Single(name: Name)
    requires '/' !in name && 0 < |name| < MAX_NAME
    ensures Components(name) == [name]
  {
    ComponentIs(name, |name|);
    assert name[..|name|] == name && name[|name|..] == "";
  }

  /** A name that is too long is cut by the backward splitter, and counts as several by the forward one. */
  lemma LongName(name: Name)
    requires '/' !in name && |name| >= MAX_NAME
    ensures Components(name) == [Cut(name)] + Components(name[MAX_NAME - 1..]) && Components(name[MAX_NAME - 1..]) != []
  {
    ComponentIs(name, MAX_NAME - 1);
  }

  /** Splitting off the name from the back cuts the forward components in two. */
  lemma SplittersAgree(path: string)
    ensures Components(path) == Components(ParentOf(path)) + Components(LastName(path))
    ensures 0 < |LastName(path)| < MAX_NAME ==> Components(path) == Components(ParentOf(path)) + [LastName(path)]
  {
    var s := LastSlash(path);
    if s < 0 {
      assert LastName(path) == path;
      assert Components("/") == [];
    } else {
      assert path == path[..s] + "/" + path[s + 1..];
      SlashSeparates(path[..s], path[s + 1..]);
      if s == 0 {
        assert path[..s] == "";
      }
    }
    if 0 < |LastName(path)| < MAX_NAME {
      Single(LastName(path));
    }
  }

  lemma {:induction false} ComponentsAreNames(path: string)
    ensures forall i :: 0 <= i < |Components(path)| ==> 0 < |Components(path)[i]| < MAX_NAME && '/' !in Components(path)[i]
    decreases |path|
  {
    if path == "" {
    } else if path[0] == '/' {
      ComponentsAreNames(path[1..]);
    } else {
      ComponentsAreNames(path[ComponentLength(path)..]);
    }
  }
}
