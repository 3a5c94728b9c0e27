/** Which bytes of a stream a list of fragments carries, and which callbacks came with them. */
module Fragments {
  import opened Protocol

  /** The bytes [offset, offset + len) of a stream, with the callback that returns their buffer. */
  datatype Fragment = Fragment(offset: nat, len: nat, doneCb: Option<nat>)

  predicate Carries(f: Fragment, p: nat) {
    f.offset <= p < f.offset + f.len
  }

  /** Some fragment carries byte p. */
  ghost predicate Sent(fs: seq<Fragment>, p: nat) {
    exists i :: 0 <= i < |fs| && Carries(fs[i], p)
  }

  ghost predicate AllSent(fs: seq<Fragment>, end: nat) {
    forall p: nat :: p < end ==> Sent(fs, p)
  }

  /** end is the first byte that no fragment carries. */
  ghost predicate FirstMissing(fs: seq<Fragment>, end: nat) {
    AllSent(fs, end) && !Sent(fs, end)
  }

  /** 1 for callback c, 0 for any other. */
  ghost function One(cb: Option<nat>, c: nat): nat {
    if cb == Some(c) then 1 else 0
  }

  /** How many fragments came with callback c. */
  ghost function Given(fs: seq<Fragment>, c: nat): nat {
    if fs == [] then 0 else Given(fs[..|fs| - 1], c) + One(fs[|fs| - 1].doneCb, c)
  }

  /** No two fragments have a byte in common. */
  ghost predicate Disjoint(fs: seq<Fragment>) {
    forall i, j, p: nat | 0 <= i < j < |fs| && Carries(fs[i], p) :: !Carries(fs[j], p)
  }

  lemma DisjointBefore(fs: seq<Fragment>, x: Fragment)
    ensures Disjoint(fs + [x]) ==> Disjoint(fs)
  {
    if Disjoint(fs + [x]) {
      forall i, j, p: nat | 0 <= i < j < |fs| && Carries(fs[i], p)
        ensures !Carries(fs[j], p)
      {
        assert (fs + [x])[i] == fs[i] && (fs + [x])[j] == fs[j];
      }
    }
  }

  lemma SentSnoc(fs: seq<Fragment>, f: Fragment, p: nat)
    ensures Sent(fs + [f], p) <==> Sent(fs, p) || Carries(f, p)
  {
    var fs' := fs + [f];
    if Sent(fs, p) {
      var i :| 0 <= i < |fs| && Carries(fs[i], p);
      assert fs'[i] == fs[i];
    }
    if Carries(f, p) {
      assert fs'[|fs|] == f;
    }
  }

  lemma GivenSnoc(fs: seq<Fragment>, f: Fragment, c: nat)
    ensures Given(fs + [f], c) == Given(fs, c) + One(f.doneCb, c)
  {
    assert (fs + [f])[..|fs|] == fs;
  }
}
