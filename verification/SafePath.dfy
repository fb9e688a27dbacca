/** The archive path rule both release programs apply, on top of PurePosixPath's own normalisation. */
module SafePath {
  import opened Results
  import opened Text

  datatype PathError = Unsafe | NonCanonical

  predicate Kept(part: string) {
    part != "" && part != "."
  }

  function Filter(parts: seq<string>): seq<string> {
    if parts == [] then []
    else (if Kept(parts[0]) then [parts[0]] else []) + Filter(parts[1..])
  }

  // PurePosixPath(value).parts of a relative path: empty and "." components disappear.
  function Parts(value: string): seq<string> {
    Filter(Split(value, '/'))
  }

  function AsPosix(value: string): string {
    if Parts(value) == [] then "." else Join(Parts(value), '/')
  }

  predicate Absolute(value: string) {
    value != "" && value[0] == '/'
  }

  function SafeRelative(value: string): Result<string, PathError> {
    if value == "" || Absolute(value) || ".." in Parts(value) || "." in Parts(value) then Err(Unsafe)
    else if AsPosix(value) != value || '\\' in value || '\0' in value then Err(NonCanonical)
    else Ok(AsPosix(value))
  }

  // A plain path: slash-separated components, none of them empty, "." or "..".
  ghost predicate Proper(parts: seq<string>) {
    forall i :: 0 <= i < |parts| ==> Kept(parts[i]) && parts[i] != ".."
  }

  ghost predicate Plain(value: string) {
    && Proper(Split(value, '/'))
    && '\\' !in value && '\0' !in value
  }

  lemma {:induction false} FilterKeeps(parts: seq<string>)
    ensures forall p :: p in Filter(parts) <==> p in parts && Kept(p)
    ensures Filter(parts) == parts <==> forall p :: p in parts ==> Kept(p)
  {
    if parts != [] {
      FilterKeeps(parts[1..]);
      FilterShorter(parts[1..]);
      assert parts == [parts[0]] + parts[1..];
    }
  }

  lemma {:induction false} FilterShorter(parts: seq<string>)
    ensures |Filter(parts)| <= |parts|
  {
    if parts != [] { FilterShorter(parts[1..]); }
  }

  // The rule accepts the plain paths and, its "." test notwithstanding, the path "." itself.
  lemma {:induction false} SafeRelativeExact(value: string)
    ensures SafeRelative(value).Ok? <==> value == "." || Plain(value)
    ensures SafeRelative(value).Ok? ==> SafeRelative(value).value == value
  {
    var parts := Split(value, '/');
    FilterKeeps(parts);
    SplitFree(value, '/');
    JoinSplit(value, '/');
    if value == "." {
      assert value[1..] == "" && parts == ["."];
    } else if value != "" && AsPosix(value) == value {
      var kept := Parts(value);
      assert Free(kept, '/') by {
        forall i | 0 <= i < |kept| ensures '/' !in kept[i] { assert kept[i] in parts; }
      }
      SplitJoin(kept, '/');
      assert kept == parts;
    }
    assert Absolute(value) ==> parts[0] == "";
    assert value == "" ==> parts[0] == "";
  }

  lemma {:induction false} SplitApart(prefix: string, path: string)
    ensures Split(prefix + "/" + path, '/') == Split(prefix, '/') + Split(path, '/')
  {
    var p, q := Split(prefix, '/'), Split(path, '/');
    SplitAppend(prefix, "/" + path, '/');
    SplitFree(prefix, '/');
    SplitSkip(Last(p), path, '/');
    assert Last(p) + ("/" + path) == Last(p) + ['/'] + path;
    assert prefix + ("/" + path) == prefix + "/" + path;
    assert Front(p) + ([Last(p)] + q) == p + q;
  }

  lemma {:induction false} ProperApart(p: seq<string>, q: seq<string>)
    ensures Proper(p + q) <==> Proper(p) && Proper(q)
  {
    assert forall i :: 0 <= i < |p| ==> (p + q)[i] == p[i];
    assert forall i :: 0 <= i < |q| ==> (p + q)[|p| + i] == q[i];
  }

  // A prefix and a member path make a safe name exactly when both are plain: the tolerated "." is not.
  lemma {:induction false} SafeJoin(prefix: string, path: string)
    ensures SafeRelative(prefix + "/" + path).Ok? <==> Plain(prefix) && Plain(path)
  {
    var name := prefix + "/" + path;
    SafeRelativeExact(name);
    SplitApart(prefix, path);
    ProperApart(Split(prefix, '/'), Split(path, '/'));
    assert name[|prefix|] == '/' && name != ".";
    hide Proper, Split, SafeRelative;
    assert forall c :: c in name <==> c in prefix || c == '/' || c in path;
  }

  // A path is plain exactly if what stands between its slashes is never empty, "." or "..", and it has no backslash
  // and no null character.
  lemma {:induction false} PlainExact(value: string)
    ensures Plain(value)
       <==> && '\\' !in value && '\0' !in value
            && forall i, j :: Between(value, '/', i, j) ==>
                 value[i..j] != "" && value[i..j] != "." && value[i..j] != ".."
  {
    var parts := Split(value, '/');
    forall part ensures part in parts <==> exists i, j :: Between(value, '/', i, j) && value[i..j] == part {
      SplitBetween(value, '/', part);
    }
    hide Split, Between;
    forall k | 0 <= k < |parts| ensures exists i, j :: Between(value, '/', i, j) && value[i..j] == parts[k] {
      assert parts[k] in parts;
    }
    forall i, j | Between(value, '/', i, j) ensures value[i..j] in parts { StretchFound(value, i, j); }
  }

  lemma {:induction false} StretchFound(value: string, i: int, j: int)
    requires Between(value, '/', i, j)
    ensures value[i..j] in Split(value, '/')
  {
    SplitBetween(value, '/', value[i..j]);
  }

  // The components of a path are the stretches between its slashes but the empty ones and ".".
  lemma {:induction false} PartsExact(value: string, part: string)
    ensures part in Parts(value)
       <==> part != "" && part != "." && exists i, j :: Between(value, '/', i, j) && value[i..j] == part
  {
    FilterKeeps(Split(value, '/'));
    SplitBetween(value, '/', part);
    hide Split, Between, Filter;
  }
}
