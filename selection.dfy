/**
 * What `GitHubCommitCollector.filter_repos` keeps: the repositories the
 * predicate `valid` accepts, in input order, minus every accepted repository
 * whose signature `(full_name, size)` an earlier accepted repository already
 * has. The collector passes its own validity check as `valid`.
 */
module Selection {
  import opened Repositories

  /** The de-duplication key of a repository. */
  datatype Signature = Signature(fullName: string, size: int)

  function SignatureOf(r: Repo): Signature {
    Signature(r.fullName, r.size)
  }

  /** The signatures of the repositories. */
  function SignaturesOf(rs: seq<Repo>): set<Signature> {
    set i | 0 <= i < |rs| :: SignatureOf(rs[i])
  }

  /** The repositories the filter keeps from `rs`, processed left to right. */
  function Kept(valid: Repo -> bool, rs: seq<Repo>): seq<Repo>
    decreases |rs|
  {
    if rs == [] then []
    else
      var kept := Kept(valid, rs[..|rs| - 1]);
      var r := rs[|rs| - 1];
      if valid(r) && SignatureOf(r) !in SignaturesOf(kept) then kept + [r] else kept
  }

  /** The signatures of the repositories among `rs` that `valid` accepts. */
  function AcceptedSignatures(valid: Repo -> bool, rs: seq<Repo>): set<Signature> {
    set i | 0 <= i < |rs| && valid(rs[i]) :: SignatureOf(rs[i])
  }

  /**
   * The repository at `i` is accepted and no accepted repository before it
   * has its signature: it is the first accepted occurrence of its signature.
   */
  predicate FirstAcceptedAt(valid: Repo -> bool, rs: seq<Repo>, i: nat)
    requires i < |rs|
  {
    && valid(rs[i])
    && forall j :: 0 <= j < i ==> !(valid(rs[j]) && SignatureOf(rs[j]) == SignatureOf(rs[i]))
  }

  lemma AcceptedSignaturesSnoc(valid: Repo -> bool, rs: seq<Repo>, r: Repo)
    ensures AcceptedSignatures(valid, rs + [r])
      == AcceptedSignatures(valid, rs) + (if valid(r) then {SignatureOf(r)} else {})
  {
    var rs' := rs + [r];
    assert rs'[|rs|] == r;
    forall s | s in AcceptedSignatures(valid, rs)
      ensures s in AcceptedSignatures(valid, rs')
    {
      var i :| 0 <= i < |rs| && valid(rs[i]) && SignatureOf(rs[i]) == s;
      assert rs'[i] == rs[i];
    }
    forall s | s in AcceptedSignatures(valid, rs')
      ensures s in AcceptedSignatures(valid, rs) || (valid(r) && s == SignatureOf(r))
    {
      var i :| 0 <= i < |rs'| && valid(rs'[i]) && SignatureOf(rs'[i]) == s;
      if i < |rs| {
        assert rs'[i] == rs[i];
      }
    }
  }

  /**
   * The seen-set of the filter holds exactly the signatures of the accepted
   * repositories so far: an accepted repository's signature is either added
   * or already present, and a rejected repository never adds its own.
   */
  lemma {:induction false} KeptSignatures(valid: Repo -> bool, rs: seq<Repo>)
    ensures SignaturesOf(Kept(valid, rs)) == AcceptedSignatures(valid, rs)
    decreases |rs|
  {
    if rs != [] {
      var init, r := rs[..|rs| - 1], rs[|rs| - 1];
      KeptSignatures(valid, init);
      AcceptedSignaturesSnoc(valid, init, r);
      assert init + [r] == rs;
      var kept := Kept(valid, init);
      if valid(r) && SignatureOf(r) !in SignaturesOf(kept) {
        SignaturesSnoc(kept, r);
      }
    }
  }

  lemma SignaturesSnoc(rs: seq<Repo>, r: Repo)
    ensures SignaturesOf(rs + [r]) == SignaturesOf(rs) + {SignatureOf(r)}
  {
    var rs' := rs + [r];
    assert rs'[|rs|] == r;
    forall s | s in SignaturesOf(rs)
      ensures s in SignaturesOf(rs')
    {
      var i :| 0 <= i < |rs| && SignatureOf(rs[i]) == s;
      assert rs'[i] == rs[i];
    }
  }

  /** One step of the filter loop: how the kept list and the seen-set grow with the next repository. */
  lemma KeptStep(valid: Repo -> bool, rs: seq<Repo>, i: nat)
    requires i < |rs|
    ensures Kept(valid, rs[..i + 1]) ==
      if valid(rs[i]) && SignatureOf(rs[i]) !in SignaturesOf(Kept(valid, rs[..i]))
      then Kept(valid, rs[..i]) + [rs[i]]
      else Kept(valid, rs[..i])
    ensures SignaturesOf(Kept(valid, rs[..i + 1])) ==
      SignaturesOf(Kept(valid, rs[..i])) + (if valid(rs[i]) then {SignatureOf(rs[i])} else {})
  {
    assert rs[..i + 1][..i] == rs[..i];
    KeptSignatures(valid, rs[..i]);
    KeptSignatures(valid, rs[..i + 1]);
    AcceptedSignaturesSnoc(valid, rs[..i], rs[i]);
    assert rs[..i] + [rs[i]] == rs[..i + 1];
  }

  /** Every kept repository is accepted. */
  lemma {:induction false} KeptAccepted(valid: Repo -> bool, rs: seq<Repo>)
    ensures forall k :: 0 <= k < |Kept(valid, rs)| ==> valid(Kept(valid, rs)[k])
    decreases |rs|
  {
    if rs != [] {
      KeptAccepted(valid, rs[..|rs| - 1]);
    }
  }

  /** No two kept repositories share a signature. */
  lemma {:induction false} KeptDistinct(valid: Repo -> bool, rs: seq<Repo>)
    ensures forall k, l :: 0 <= k < l < |Kept(valid, rs)| ==> SignatureOf(Kept(valid, rs)[k]) != SignatureOf(Kept(valid, rs)[l])
    decreases |rs|
  {
    if rs != [] {
      KeptDistinct(valid, rs[..|rs| - 1]);
    }
  }

  /** Whether a position holds a first accepted occurrence depends only on the positions up to it. */
  lemma FirstAcceptedPrefix(valid: Repo -> bool, rs: seq<Repo>, m: nat, i: nat)
    requires i < m <= |rs|
    ensures FirstAcceptedAt(valid, rs[..m], i) == FirstAcceptedAt(valid, rs, i)
  {
    assert forall j :: 0 <= j <= i ==> rs[..m][j] == rs[j];
  }

  /** The last position holds a first accepted occurrence when it is accepted and its signature is new. */
  lemma FirstAcceptedLast(valid: Repo -> bool, rs: seq<Repo>)
    requires rs != []
    ensures FirstAcceptedAt(valid, rs, |rs| - 1) <==>
      valid(rs[|rs| - 1]) && SignatureOf(rs[|rs| - 1]) !in AcceptedSignatures(valid, rs[..|rs| - 1])
  {
    var n := |rs| - 1;
    assert forall j :: 0 <= j < n ==> rs[..n][j] == rs[j];
  }

  /** The positions in `rs` of the repositories the filter keeps, in order. */
  function KeptPositions(valid: Repo -> bool, rs: seq<Repo>): seq<nat>
    decreases |rs|
  {
    if rs == [] then []
    else
      var n := |rs| - 1;
      var positions := KeptPositions(valid, rs[..n]);
      if valid(rs[n]) && SignatureOf(rs[n]) !in SignaturesOf(Kept(valid, rs[..n])) then positions + [n] else positions
  }

  /** The positions are increasing and within `rs`. */
  lemma {:induction false} KeptPositionsIncreasing(valid: Repo -> bool, rs: seq<Repo>)
    ensures forall k :: 0 <= k < |KeptPositions(valid, rs)| ==> KeptPositions(valid, rs)[k] < |rs|
    ensures forall k, l :: 0 <= k < l < |KeptPositions(valid, rs)| ==> KeptPositions(valid, rs)[k] < KeptPositions(valid, rs)[l]
    decreases |rs|
  {
    if rs != [] {
      KeptPositionsIncreasing(valid, rs[..|rs| - 1]);
    }
  }

  /** The kept list is the subsequence of `rs` at the kept positions. */
  lemma {:induction false} KeptAtPositions(valid: Repo -> bool, rs: seq<Repo>)
    ensures |KeptPositions(valid, rs)| == |Kept(valid, rs)|
    ensures forall k :: 0 <= k < |Kept(valid, rs)| ==>
      KeptPositions(valid, rs)[k] < |rs| && Kept(valid, rs)[k] == rs[KeptPositions(valid, rs)[k]]
    decreases |rs|
  {
    if rs != [] {
      var n := |rs| - 1;
      KeptAtPositions(valid, rs[..n]);
      assert forall j :: 0 <= j < n ==> rs[..n][j] == rs[j];
    }
  }

  /** A position is kept exactly when it holds the first accepted occurrence of its signature. */
  lemma {:induction false} KeptPositionsFirst(valid: Repo -> bool, rs: seq<Repo>)
    ensures forall i :: 0 <= i < |rs| ==> (i in KeptPositions(valid, rs) <==> FirstAcceptedAt(valid, rs, i))
    decreases |rs|
  {
    if rs != [] {
      var n := |rs| - 1;
      var init := rs[..n];
      KeptPositionsFirst(valid, init);
      KeptPositionsIncreasing(valid, init);
      KeptSignatures(valid, init);
      FirstAcceptedLast(valid, rs);
      forall i | 0 <= i < n
        ensures i in KeptPositions(valid, rs) <==> FirstAcceptedAt(valid, rs, i)
      {
        FirstAcceptedPrefix(valid, rs, n, i);
      }
    }
  }
}
