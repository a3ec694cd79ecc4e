/** Slash-separated paths as text: printing (`_paths_for`) and splitting (`resolve_path`), app/services/files.py. */
module FilePaths {
  import opened FileNames

  /** `/reports/q3/file.pdf` for the names from the root down. */
  function PathText(names: seq<string>): string {
    if names == [] then "" else PathText(names[..|names| - 1]) + "/" + names[|names| - 1]
  }

  /** Where the first slash is, or the length if there is none. */
  function FirstSlash(s: string): (i: nat)
    ensures i <= |s| && (i < |s| ==> s[i] == '/') && '/' !in s[..i]
  {
    if s == [] || s[0] == '/' then 0
    else
      assert s[..1 + FirstSlash(s[1..])] == [s[0]] + s[1..][..FirstSlash(s[1..])];
      1 + FirstSlash(s[1..])
  }

  /** Python's `path.split("/")`. */
  function Split(path: string): seq<string>
    decreases |path|
  {
    var i := FirstSlash(path);
    if i == |path| then [path] else [path[..i]] + Split(path[i + 1..])
  }

  function NonEmpty(parts: seq<string>): seq<string> {
    if parts == [] then [] else (if parts[0] == "" then [] else [parts[0]]) + NonEmpty(parts[1..])
  }

  function Segments(path: string): seq<string> {
    NonEmpty(Split(path))
  }

  lemma FirstSlashIs(s: string, i: nat)
    requires i < |s| && s[i] == '/' && '/' !in s[..i]
    ensures FirstSlash(s) == i
  {
    var j := FirstSlash(s);
    assert forall k :: 0 <= k < i ==> s[k] in s[..i];
    assert forall k :: 0 <= k < j ==> s[k] in s[..j];
  }

  lemma {:induction false} SlashBetween(p: string, q: string)
    ensures Split(p + "/" + q) == Split(p) + Split(q)
    decreases |p|
  {
    var s, i := p + "/" + q, FirstSlash(p);
    assert s[i] == '/';
    assert s[..i] == p[..i];
    FirstSlashIs(s, i);
    if i == |p| {
      assert s[..i] == p && s[i + 1..] == q;
    } else {
      assert s[i + 1..] == p[i + 1..] + "/" + q;
      SlashBetween(p[i + 1..], q);
    }
  }

  lemma {:induction false} NonEmptyBoth(a: seq<string>, b: seq<string>)
    ensures NonEmpty(a + b) == NonEmpty(a) + NonEmpty(b)
  {
    if a == [] {
      assert a + b == b;
    } else {
      assert (a + b)[1..] == a[1..] + b;
      NonEmptyBoth(a[1..], b);
    }
  }

  lemma SegmentsJoin(p: string, q: string)
    ensures Segments(p + "/" + q) == Segments(p) + Segments(q)
  {
    SlashBetween(p, q);
    NonEmptyBoth(Split(p), Split(q));
  }

  lemma OneSegment(name: string)
    requires PathSafe(name)
    ensures Segments(name) == [name]
  {
    assert FirstSlash(name) == |name|;
    assert NonEmpty([name]) == [name] + NonEmpty([]);
  }

  /** Splitting undoes printing. */
  lemma {:induction false} SegmentsOfPath(names: seq<string>)
    requires forall n :: n in names ==> PathSafe(n)
    ensures Segments(PathText(names)) == names
  {
    if names == [] {
      assert Split("") == [""];
    } else {
      var k := |names| - 1;
      SegmentsOfPath(names[..k]);
      SegmentsJoin(PathText(names[..k]), names[k]);
      OneSegment(names[k]);
    }
  }

}
