/** Objects that come and go, as (name, time) pairs of when they start and when they end. */
module Presence {

  // Started at some time up to t and not ended since.
  ghost predicate There(started: iset<(string, nat)>, ended: iset<(string, nat)>, name: string, t: nat) {
    exists c :: StartedAt(started, ended, name, t, c)
  }

  ghost predicate StartedAt(started: iset<(string, nat)>, ended: iset<(string, nat)>, name: string, t: nat, c: nat) {
    (name, c) in started && c <= t && forall d: nat :: c < d <= t ==> (name, d) !in ended
  }

  // What is not there after the last start is never there again.
  lemma {:induction false} StaysAway(started: iset<(string, nat)>, ended: iset<(string, nat)>, name: string, quiet: nat,
                                     s: nat, u: nat)
    requires forall c :: (name, c) in started ==> c <= quiet
    requires quiet <= s <= u && !There(started, ended, name, s)
    ensures !There(started, ended, name, u)
  {
    forall c ensures !StartedAt(started, ended, name, u, c) {
      assert !StartedAt(started, ended, name, s, c);
    }
  }

  // What starts once and never ends is there from then on, and not before.
  lemma {:induction false} StaysThere(name: string, c: nat, t: nat)
    ensures There(iset{(name, c)}, iset{}, name, t) <==> c <= t
  {
    assert StartedAt(iset{(name, c)}, iset{}, name, t, c) <==> c <= t;
  }
}
