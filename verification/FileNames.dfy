/**
 * Names in the file tree (app/services/files.py): which names are accepted, and how a
 * taken name is numbered until it is free.
 */
module FileNames {
  import opened Wrappers
  import opened Collections
  import opened Numbering

  /** The errors of the file services. */
  datatype Error = InvalidName | NameTooLong | NameTaken | FileInTheWay | FolderNotFound | TargetIsFile
                 | WouldCycle | NoStoredBytes | RootPath | PathNotFound

  const MAX_NAME: nat := 255

  /** The white space that Python's `strip` removes. */
  predicate IsSpace(c: char) {
    || '\t' <= c <= '\r' || '\U{1c}' <= c <= ' ' || c == '\U{85}' || c == '\U{a0}' || c == '\U{1680}'
    || '\U{2000}' <= c <= '\U{200a}' || c == '\U{2028}' || c == '\U{2029}' || c == '\U{202f}' || c == '\U{205f}' || c == '\U{3000}'
  }

  function TrimLeft(s: string): string {
    if s != [] && IsSpace(s[0]) then TrimLeft(s[1..]) else s
  }

  function TrimRight(s: string): string {
    if s != [] && IsSpace(s[|s| - 1]) then TrimRight(s[..|s| - 1]) else s
  }

  function Trim(s: string): string {
    TrimRight(TrimLeft(s))
  }

  predicate Trimmed(s: string) {
    s != [] ==> !IsSpace(s[0]) && !IsSpace(s[|s| - 1])
  }

  /** A name that can stand between two slashes of a path. */
  predicate PathSafe(name: string) {
    name != "" && name != "." && name != ".." && '/' !in name && '\0' !in name
  }

  function ValidateNodeName(name: string): Result<string, Error> {
    var trimmed := Trim(name);
    if trimmed == "" || trimmed == "." || trimmed == ".." || '/' in trimmed || '\0' in trimmed then Err(InvalidName)
    else if |trimmed| > MAX_NAME then Err(NameTooLong)
    else Ok(trimmed)
  }

  lemma TrimmedRight(s: string)
    ensures TrimRight(s) <= s && (s != [] && !IsSpace(s[0]) ==> TrimRight(s) != [] && !IsSpace(TrimRight(s)[0]))
    ensures TrimRight(s) != [] ==> !IsSpace(TrimRight(s)[|TrimRight(s)| - 1])
  {
  }

  lemma TrimmedLeft(s: string)
    ensures TrimLeft(s) != [] ==> !IsSpace(TrimLeft(s)[0])
  {
  }

  lemma TrimTrims(s: string)
    ensures Trimmed(Trim(s))
  {
    TrimmedLeft(s);
    TrimmedRight(TrimLeft(s));
  }

  /** Trimming takes white space away at both ends, and nothing else. */
  lemma {:induction false} TrimMeaning(s: string) returns (left: string, right: string)
    ensures s == left + Trim(s) + right && Trimmed(Trim(s)) && forall c :: c in left + right ==> IsSpace(c)
  {
    TrimTrims(s);
    left := CutLeft(s);
    right := CutRight(TrimLeft(s));
  }

  lemma {:induction false} CutLeft(s: string) returns (left: string)
    ensures s == left + TrimLeft(s) && forall c :: c in left ==> IsSpace(c)
  {
    if s != [] && IsSpace(s[0]) {
      var rest := CutLeft(s[1..]);
      left := [s[0]] + rest;
      assert s == [s[0]] + s[1..];
    } else {
      left := [];
    }
  }

  lemma {:induction false} CutRight(s: string) returns (right: string)
    ensures s == TrimRight(s) + right && forall c :: c in right ==> IsSpace(c)
  {
    if s != [] && IsSpace(s[|s| - 1]) {
      var rest := CutRight(s[..|s| - 1]);
      right := rest + [s[|s| - 1]];
      assert s == s[..|s| - 1] + [s[|s| - 1]];
    } else {
      right := [];
    }
  }

  /** What is accepted is exactly the trimmed, path-safe names of at most 255 characters, which stay as they are. */
  lemma ValidationIsExact(name: string)
    ensures var r := ValidateNodeName(name);
            && (r.Ok? ==> PathSafe(r.value) && |r.value| <= MAX_NAME)
            && (r.Ok? ==> r.value == Trim(name) && Trimmed(r.value))
            && (r.Ok? <==> PathSafe(Trim(name)) && |Trim(name)| <= 255)
            && (r == Err(InvalidName) <==> !PathSafe(Trim(name)))
            && (r == Err(NameTooLong) <==> PathSafe(Trim(name)) && |Trim(name)| > 255)
            && (ValidateNodeName(name) == Ok(name) <==> Trimmed(name) && PathSafe(name) && |name| <= MAX_NAME)
  {
    TrimTrims(name);
  }

  // ---- numbering a taken name -----------------------------------------------------------------

  /** Where the last dot is, or the length if there is none. */
  function LastDot(name: string): (i: nat)
    ensures i <= |name| && (i < |name| ==> name[i] == '.')
    ensures forall j :: i < j < |name| ==> name[j] != '.'
    ensures i == |name| ==> '.' !in name
  {
    if name == [] then 0
    else if name[|name| - 1] == '.' then |name| - 1
    else
      var i := LastDot(name[..|name| - 1]);
      if i == |name| - 1 then |name| else i
  }

  function Base(name: string): string {
    name[..LastDot(name)]
  }

  function Extension(name: string): string {
    name[LastDot(name)..]
  }

  function Suffixed(name: string, counter: nat): string {
    Base(name) + " (" + Decimal(counter) + ")" + Extension(name)
  }

  /** The number stands before the last extension, or at the end of a name without one. */
  lemma SuffixedMeaning(stem: string, extension: string, n: nat)
    ensures '.' !in extension ==> Suffixed(stem + "." + extension, n) == stem + " (" + Decimal(n) + ")." + extension
    ensures '.' !in stem ==> Suffixed(stem, n) == stem + " (" + Decimal(n) + ")"
  {
    var name := stem + "." + extension;
    if '.' !in extension {
      assert name[|stem|] == '.';
      assert forall j :: |stem| < j < |name| ==> name[j] == extension[j - |stem| - 1];
      assert LastDot(name) == |stem|;
      assert Base(name) == stem && Extension(name) == "." + extension;
    }
    if '.' !in stem {
      assert LastDot(stem) == |stem|;
      assert Base(stem) == stem && Extension(stem) == "";
    }
  }

  lemma SuffixedInjective(name: string, m: nat, n: nat)
    requires Suffixed(name, m) == Suffixed(name, n)
    ensures m == n
  {
    var b, e := |Base(name)| + 2, |Extension(name)| + 1;
    var s, t := Suffixed(name, m), Suffixed(name, n);
    assert s[b..|s| - e] == Decimal(m);
    assert t[b..|t| - e] == Decimal(n);
    DecimalInjective(m, n);
  }

  ghost predicate FirstNumber(name: string, taken: set<string>, n: nat) {
    n >= 1 && Suffixed(name, n) !in taken && forall m :: 1 <= m < n ==> Suffixed(name, m) in taken
  }

  /** The name itself when it is free, else the first numbered one that is. */
  ghost predicate Deduped(name: string, taken: set<string>, r: string) {
    if name !in taken then r == name else exists n :: FirstNumber(name, taken, n) && r == Suffixed(name, n)
  }

  /** Pigeonhole: only so many numbered names are taken. */
  lemma TakenSuffixes(name: string, taken: set<string>, n: nat)
    requires forall m :: 1 <= m <= n ==> Suffixed(name, m) in taken
    ensures n <= |taken|
  {
    var tried := seq(n, i requires 0 <= i < n => Suffixed(name, i + 1));
    forall i, j | 0 <= i < j < |tried| ensures tried[i] != tried[j] {
      if tried[i] == tried[j] {
        SuffixedInjective(name, i + 1, j + 1);
      }
    }
    DistinctFits(tried, taken);
  }

  lemma {:induction false} DecimalDigits(n: nat)
    ensures forall c :: c in Decimal(n) ==> '0' <= c <= '9'
  {
    if n >= 10 {
      DecimalDigits(n / 10);
    }
  }

  lemma SuffixedSafe(name: string, n: nat)
    requires PathSafe(name)
    ensures PathSafe(Suffixed(name, n))
  {
    DecimalDigits(n);
    var s, i := Suffixed(name, n), LastDot(name);
    assert name == Base(name) + Extension(name);
    assert s[i] == ' ';
    forall c | c in s ensures c != '/' && c != '\0' {
      assert c in Base(name) || c in " (" || c in Decimal(n) || c in ")" || c in Extension(name);
    }
  }

  lemma DedupedSafe(name: string, taken: set<string>, r: string)
    requires PathSafe(name) && Deduped(name, taken, r)
    ensures PathSafe(r) && r !in taken
  {
    if name in taken {
      var n :| FirstNumber(name, taken, n) && r == Suffixed(name, n);
      SuffixedSafe(name, n);
    }
  }

  /**
   * The name that numbering picks is not always valid: exactly when the suffix makes it too
   * long, or when the last dot is the first character, so that nothing precedes the number.
   */
  lemma NumberedNameValid(name: string, taken: set<string>, r: string) returns (n: nat)
    requires ValidateNodeName(name) == Ok(name) && name in taken && Deduped(name, taken, r)
    ensures FirstNumber(name, taken, n) && r == Suffixed(name, n)
    ensures ValidateNodeName(r) == Ok(r) <==> |name| + 3 + |Decimal(n)| <= MAX_NAME && LastDot(name) > 0
  {
    n :| FirstNumber(name, taken, n) && r == Suffixed(name, n);
    ValidationIsExact(name);
    SuffixedSafe(name, n);
    ValidationIsExact(r);
    if LastDot(name) > 0 {
      assert r[0] == name[0];
    } else {
      assert r[0] == ' ';
    }
    if LastDot(name) < |name| {
      assert r[|r| - 1] == name[|name| - 1];
    } else {
      assert r[|r| - 1] == ')';
    }
  }

  /** A second `.env` is filed under a name that begins with a space. */
  lemma DotFileNumbered(r: string)
    requires Deduped(".env", {".env"}, r)
    ensures r == " (1).env" && ValidateNodeName(".env") == Ok(".env") && ValidateNodeName(r) != Ok(r)
  {
    var name := ".env";
    assert name[3] != '.' && name[2] != '.' && name[1] != '.';
    assert LastDot(name) == 0;
    assert Base(name) == "" && Extension(name) == name && Decimal(1) == "1";
    assert Suffixed(name, 1) == " (1).env";
    ValidationIsExact(name);
    var n := NumberedNameValid(name, {name}, r);
    assert n == 1;
  }

  /** A name of full length has no valid number. */
  lemma LongNameNumbered(name: string, taken: set<string>, r: string)
    requires ValidateNodeName(name) == Ok(name) && |name| == MAX_NAME && name in taken && Deduped(name, taken, r)
    ensures |r| > MAX_NAME && ValidateNodeName(r) != Ok(r)
  {
    var n := NumberedNameValid(name, taken, r);
  }

  /** There are such names. */
  lemma LongNameExists(name: string)
    requires name == seq(MAX_NAME, _ => 'a')
    ensures ValidateNodeName(name) == Ok(name) && |name| == MAX_NAME
  {
    assert forall c :: c in name ==> c == 'a';
    assert name[0] == 'a' && name[254] == 'a';
    ValidationIsExact(name);
  }
}
