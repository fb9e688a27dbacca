/** Hiding the checkout path: the `$WORKSPACE` renaming of package ids. */
module Workspace {
  import opened Text

  const MARKER := "$WORKSPACE"

  // identity.replace(str(root), "$WORKSPACE")
  function Rename(id: string, workspace: string): string
    requires workspace != []
  {
    Replace(id, workspace, MARKER)
  }

  lemma {:induction false} OccursInTail(s: string, i: nat, word: string)
    requires i <= |s| && Occurs(s[i..], word)
    ensures Occurs(s, word)
  {
    var k :| 0 <= k <= |s[i..]| && word <= s[i..][k..];
    assert s[i..][k..] == s[i + k..];
  }

  // A dollar-free prefix of the renamed text was already a prefix of the text.
  lemma {:induction false} RenamedPrefix(t: string, workspace: string, w: string)
    requires workspace != [] && '$' !in w
    requires w <= Rename(t, workspace)
    ensures w <= t
    decreases |t|
  {
    if w != [] && t != [] {
      var r := Rename(t, workspace);
      assert r[0] == w[0] && w[0] in w;
      assert r == [t[0]] + Rename(t[1..], workspace);
      assert w[1..] <= Rename(t[1..], workspace) by {
        assert w == [w[0]] + w[1..] && r[1..] == Rename(t[1..], workspace);
        assert w[1..] == r[..|w|][1..] == r[1..][..|w| - 1];
      }
      assert forall x :: x in w[1..] ==> x in w;
      RenamedPrefix(t[1..], workspace, w[1..]);
      assert w == [t[0]] + w[1..] && t == [t[0]] + t[1..];
    }
  }

  // If an inserted marker reads like ordinary text, then that text spelled the marker itself.
  lemma {:induction false} MarkerFaked(s: string, t: string, workspace: string)
    requires workspace != [] && workspace <= s && !(workspace <= t)
    requires Rename(s, workspace) == Rename(t, workspace)
    ensures Occurs(t, MARKER)
  {
    var rest := Rename(s[|workspace|..], workspace);
    var w := MARKER[1..];
    var r := Rename(t, workspace);
    assert r == MARKER + rest == ['$'] + (w + rest);
    assert r == [t[0]] + Rename(t[1..], workspace);
    assert r[1..] == w + rest == Rename(t[1..], workspace);
    RenamedPrefix(t[1..], workspace, w);
    assert t == ['$'] + t[1..] && MARKER == ['$'] + w;
    assert MARKER <= t[0..];
  }

  // The renaming loses nothing on ids that do not spell the marker themselves.
  lemma {:induction false} RenamingInjective(s: string, t: string, workspace: string)
    requires workspace != [] && !Occurs(s, MARKER) && !Occurs(t, MARKER)
    requires Rename(s, workspace) == Rename(t, workspace)
    ensures s == t
    decreases |s|
  {
    var n := |workspace|;
    if workspace <= s && !(workspace <= t) { MarkerFaked(s, t, workspace); }
    if workspace <= t && !(workspace <= s) { MarkerFaked(t, s, workspace); }
    if workspace <= s {
      var a, b := Rename(s[n..], workspace), Rename(t[n..], workspace);
      assert (MARKER + a)[|MARKER|..] == a && (MARKER + b)[|MARKER|..] == b;
      if Occurs(s[n..], MARKER) { OccursInTail(s, n, MARKER); }
      if Occurs(t[n..], MARKER) { OccursInTail(t, n, MARKER); }
      RenamingInjective(s[n..], t[n..], workspace);
      assert s == workspace + s[n..] && t == workspace + t[n..];
    } else if s != [] && t != [] {
      var a, b := Rename(s[1..], workspace), Rename(t[1..], workspace);
      assert ([s[0]] + a)[1..] == a && ([t[0]] + b)[1..] == b;
      if Occurs(s[1..], MARKER) { OccursInTail(s, 1, MARKER); }
      if Occurs(t[1..], MARKER) { OccursInTail(t, 1, MARKER); }
      RenamingInjective(s[1..], t[1..], workspace);
      assert s == [s[0]] + s[1..] && t == [t[0]] + t[1..];
    }
  }

  // An id that does spell it can collide with one that spells the path.
  lemma {:induction false} RenamingCollides()
    ensures Rename("/src", "/src") == Rename(MARKER, "/src")
  {
    var m := MARKER;
    assert Rename("/src", "/src") == MARKER + Rename("", "/src") == MARKER;
    Unchanged(m, "/src");
  }

  lemma {:induction false} Unchanged(s: string, workspace: string)
    requires workspace != [] && workspace[0] !in s
    ensures Rename(s, workspace) == s
  {
    if s != [] {
      Unchanged(s[1..], workspace);
      assert s == [s[0]] + s[1..];
    }
  }
}
