/**
 The signed list of files of a package: path order, the paths a file may have, and the search
 for an unchanged file.
 */
module PackageIndex {
  import opened Bytes
  import opened AuditBlock

  datatype Entry = Entry(path: string, fileSize: nat, unixMode: bv32, sha: Digest)

  /** strcmp: negative, zero or positive. */
  function Compare(a: string, b: string): int {
    if a == [] && b == [] then 0
    else if a == [] then -1
    else if b == [] then 1
    else if a[0] < b[0] then -1
    else if a[0] > b[0] then 1
    else Compare(a[1..], b[1..])
  }

  lemma {:induction false} CompareIsOrder(a: string, b: string)
    ensures Compare(a, b) == 0 <==> a == b
    ensures Compare(a, b) < 0 <==> Compare(b, a) > 0
  {
    if a != [] && b != [] && a[0] == b[0] {
      CompareIsOrder(a[1..], b[1..]);
      assert a == [a[0]] + a[1..] && b == [b[0]] + b[1..];
    }
  }

  lemma {:induction false} CompareIsTransitive(a: string, b: string, c: string)
    requires Compare(a, b) < 0 && Compare(b, c) < 0
    ensures Compare(a, c) < 0
  {
    if a != [] && c != [] && a[0] == b[0] == c[0] {
      CompareIsTransitive(a[1..], b[1..], c[1..]);
    }
  }

  // ----- Paths -----

  /** strchr for the separator. */
  function Slash(path: string): (i: nat)
    ensures i <= |path|
    ensures i < |path| ==> path[i] == '/'
    ensures forall j :: 0 <= j < i ==> path[j] != '/'
  {
    if path == [] || path[0] == '/' then 0 else 1 + Slash(path[1..])
  }

  /** The names between the separators. */
  function Components(path: string): (names: seq<string>)
    ensures names != []
    decreases |path|
  {
    var i := Slash(path);
    if i == |path| then [path] else [path[..i]] + Components(path[i + 1..])
  }

  function Joined(names: seq<string>): string
    requires names != []
  {
    if |names| == 1 then names[0] else names[0] + "/" + Joined(names[1..])
  }

  lemma JoinedStep(first: string, rest: seq<string>)
    requires rest != []
    ensures Joined([first] + rest) == first + "/" + Joined(rest)
  {
    assert ([first] + rest)[1..] == rest;
  }

  lemma ComponentsStep(path: string)
    requires Slash(path) < |path|
    ensures Components(path) == [path[..Slash(path)]] + Components(path[Slash(path) + 1..])
  {
    hide Slash;
  }

  lemma AtSlash(path: string, i: nat)
    requires i < |path| && path[i] == '/'
    ensures path == path[..i] + "/" + path[i + 1..]
  {
  }

  /** Splitting loses nothing: two paths with the same components are the same path. */
  lemma {:induction false} JoinedComponents(path: string)
    ensures Joined(Components(path)) == path
    decreases |path|
  {
    hide Slash;
    var i := Slash(path);
    if i < |path| {
      hide Joined, Components;
      var rest := path[i + 1..];
      ComponentsStep(path);
      JoinedComponents(rest);
      JoinedStep(path[..i], Components(rest));
      AtSlash(path, i);
    }
  }

  predicate GoodChar(c: char) {
    c != '\\' && c >= ' ' && c != 0x7F as char
  }

  predicate GoodName(name: string) {
    name != "" && name != "." && name != ".."
  }

  /** What a path is: plain names between single separators, none of them a step to itself or up. */
  predicate Normal(path: string) {
    && 0 < |path| < 1024
    && (forall i :: 0 <= i < |path| ==> GoodChar(path[i]))
    && GoodNames(path)
  }

  predicate AllGood(names: seq<string>) {
    forall i :: 0 <= i < |names| ==> GoodName(names[i])
  }

  predicate GoodNames(path: string) {
    AllGood(Components(path))
  }

  /** valid_path: one pass over the characters decides it. */
  method ValidPath(path: string) returns (ok: bool)
    ensures ok <==> Normal(path)
  {
    hide GoodNames, Components;
    if |path| == 0 || |path| >= 1024 {
      return false;
    }
    if path[0] == '/' || path[|path| - 1] == '/' {
      EdgeSeparator(path);
      return false;
    }
    if path[0] == '\\' || path[|path| - 1] == '\\' || exists i :: 0 <= i < |path| && path[i] == 0 as char {
      return false;
    }
    var start, index := 0, 0;
    while index <= |path|
      invariant 0 <= start <= index <= |path| + 1 && start <= |path|
      invariant forall i :: 0 <= i < index && i < |path| ==> GoodChar(path[i])
      invariant forall i :: start <= i < index && i < |path| ==> path[i] != '/'
      invariant index <= |path| ==> (GoodNames(path) <==> GoodNames(path[start..]))
      invariant index == |path| + 1 ==> GoodNames(path)
    {
      var value := if index == |path| then '/' else path[index];
      if !GoodChar(value) {
        return false;
      }
      if value == '/' {
        var segment := path[start..index];
        NextSegment(path, start, index);
        if !GoodName(segment) {
          return false;
        }
        if index < |path| {
          start := index + 1;
        }
      }
      index := index + 1;
    }
    return true;
  }

  /** The name before the first separator, and the names of the rest. */
  lemma FirstComponent(path: string, i: nat)
    requires i <= |path| && (i < |path| ==> path[i] == '/')
    requires forall j :: 0 <= j < i ==> path[j] != '/'
    ensures i == Slash(path)
    ensures GoodNames(path) <==> GoodName(path[..i]) && (i < |path| ==> GoodNames(path[i + 1..]))
  {
    hide GoodName, AllGood, Slash;
    if i < |path| {
      ComponentsStep(path);
      AllGoodStep(path[..i], Components(path[i + 1..]));
    } else {
      AllGoodStep(path, []);
      assert path[..i] == path && [path] + [] == [path];
    }
  }

  lemma AllGoodStep(first: string, rest: seq<string>)
    ensures AllGood([first] + rest) <==> GoodName(first) && AllGood(rest)
    ensures AllGood([])
  {
    hide GoodName;
    var all := [first] + rest;
    assert all[0] == first && forall k :: 0 <= k < |rest| ==> all[k + 1] == rest[k];
  }

  lemma NextSegment(path: string, start: nat, index: nat)
    requires start <= index <= |path| && (index < |path| ==> path[index] == '/')
    requires forall i :: start <= i < index ==> path[i] != '/'
    ensures GoodNames(path[start..]) <==> GoodName(path[start..index]) && (index < |path| ==> GoodNames(path[index + 1..]))
  {
    hide GoodNames, Components;
    FirstComponent(path[start..], index - start);
    assert path[start..][..index - start] == path[start..index];
    if index < |path| {
      assert path[start..][index - start + 1..] == path[index + 1..];
    }
  }

  /** A separator at either end leaves an empty name. */
  lemma EdgeSeparator(path: string)
    requires path != "" && (path[0] == '/' || path[|path| - 1] == '/')
    ensures !GoodNames(path)
    decreases |path|
  {
    var i := Slash(path);
    FirstComponent(path, i);
    if i == |path| - 1 {
      FirstComponent("", 0);
    } else if i > 0 {
      EdgeSeparator(path[i + 1..]);
    }
  }

  const MUTABLE_EXTENSIONS: seq<string> :=
    [".db", ".sqlite", ".session", ".lock", ".wal", ".shm", ".log", ".tmp"]

  function Lower(s: string): (t: string)
    ensures |t| == |s|
  {
    seq(|s|, i requires 0 <= i < |s| => if 'A' <= s[i] <= 'Z' then ((s[i] as int) + 32) as char else s[i])
  }

  predicate EndsWith(path: string, extension: string) {
    |path| >= |extension| && Lower(path[|path| - |extension|..]) == Lower(extension)
  }

  /** Paths that no package may carry. */
  predicate Mutable(path: string) {
    !Normal(path) || exists i :: 0 <= i < |MUTABLE_EXTENSIONS| && EndsWith(path, MUTABLE_EXTENSIONS[i])
  }

  /** alrios_package_index_path_is_mutable. */
  method PathIsMutable(path: string) returns (yes: bool)
    ensures yes <==> Mutable(path)
  {
    var ok := ValidPath(path);
    if !ok {
      return true;
    }
    for i := 0 to |MUTABLE_EXTENSIONS|
      invariant forall j :: 0 <= j < i ==> !EndsWith(path, MUTABLE_EXTENSIONS[j])
    {
      if EndsWith(path, MUTABLE_EXTENSIONS[i]) {
        return true;
      }
    }
    return false;
  }

  // ----- The index -----

  predicate Sorted(index: seq<Entry>) {
    forall i, j :: 0 <= i < j < |index| ==> Compare(index[i].path, index[j].path) < 0
  }

  predicate AllFixed(index: seq<Entry>) {
    forall i :: 0 <= i < |index| ==> !Mutable(index[i].path)
  }

  /** valid_index: comparing neighbours is enough to know the whole order. */
  method ValidIndex(index: seq<Entry>) returns (ok: bool)
    ensures ok <==> Sorted(index) && AllFixed(index)
  {
    for position := 0 to |index|
      invariant Sorted(index[..position]) && AllFixed(index[..position])
    {
      var bad := PathIsMutable(index[position].path);
      if bad {
        return false;
      }
      if position != 0 && Compare(index[position - 1].path, index[position].path) >= 0 {
        return false;
      }
      forall i | 0 <= i < position
        ensures Compare(index[i].path, index[position].path) < 0
      {
        if i < position - 1 {
          assert Compare(index[..position][i].path, index[..position][position - 1].path) < 0;
          CompareIsTransitive(index[i].path, index[position - 1].path, index[position].path);
        }
      }
      assert index[..position + 1] == index[..position] + [index[position]];
    }
    assert index[..|index|] == index;
    return true;
  }

  predicate SameFile(a: Entry, b: Entry) {
    a.path == b.path && a.fileSize == b.fileSize && a.sha == b.sha
  }

  /** find_entry: a binary search that finds the entry with this path, size and digest whenever there is one. */
  method FindEntry(index: seq<Entry>, wanted: Entry) returns (found: bool, at: nat)
    requires Sorted(index)
    ensures found <==> exists i :: 0 <= i < |index| && SameFile(index[i], wanted)
    ensures found ==> at < |index| && SameFile(index[at], wanted)
  {
    var low, high := 0, |index|;
    while low < high
      invariant 0 <= low <= high <= |index|
      invariant forall i :: 0 <= i < low ==> Compare(index[i].path, wanted.path) < 0
      invariant forall i :: high <= i < |index| ==> Compare(wanted.path, index[i].path) < 0
    {
      var middle := low + (high - low) / 2;
      var comparison := Compare(index[middle].path, wanted.path);
      CompareIsOrder(index[middle].path, wanted.path);
      CompareIsOrder(wanted.path, index[middle].path);
      if comparison < 0 {
        forall i | 0 <= i < middle
          ensures Compare(index[i].path, wanted.path) < 0
        {
          CompareIsTransitive(index[i].path, index[middle].path, wanted.path);
        }
        low := middle + 1;
      } else if comparison > 0 {
        forall i | middle < i < |index|
          ensures Compare(wanted.path, index[i].path) < 0
        {
          CompareIsTransitive(wanted.path, index[middle].path, index[i].path);
        }
        high := middle;
      } else if index[middle].fileSize == wanted.fileSize && index[middle].sha == wanted.sha {
        return true, middle;
      } else {
        OnePathOnce(index, middle);
        return false, 0;
      }
    }
    CompareIsOrder(wanted.path, wanted.path);
    return false, 0;
  }

  lemma OnePathOnce(index: seq<Entry>, at: nat)
    requires Sorted(index) && at < |index|
    ensures forall i :: 0 <= i < |index| && index[i].path == index[at].path ==> i == at
  {
    CompareIsOrder(index[at].path, index[at].path);
  }

  /** Different entries have different components, so they never name the same file. */
  lemma ComponentsApart(index: seq<Entry>, i: nat, j: nat)
    requires Sorted(index) && i < |index| && j < |index| && i != j
    ensures Components(index[i].path) != Components(index[j].path)
  {
    OnePathOnce(index, i);
    JoinedComponents(index[i].path);
    JoinedComponents(index[j].path);
  }

  function ReadonlyMode(indexed: bv32): bv16 {
    if indexed & 0x49 != 0 then 0x16D else 0x124
  }
}
