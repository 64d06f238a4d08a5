/** Whose usage is whose: matching the attempts of a run with the sessions its database holds. */
module Attribution {
  import opened Common

  /** A readable attempt names a session, or a title to recover one by, or neither. Empty is absent. */
  datatype Attempt = Attempt(eventDir: string, readable: bool, sessionId: Option<string>, title: Option<string>)

  /** Session id -> the titles it carries. */
  type Sessions = map<string, seq<string>>

  function Titled(present: Sessions, title: string): set<string> {
    set s | s in present && title in present[s]
  }

  function TheOnly(s: set<string>): (x: string)
    requires |s| == 1
    ensures s == {x}
  {
    Singleton(s);
    var x :| x in s && s == {x};
    x
  }

  lemma Singleton(s: set<string>)
    requires |s| == 1
    ensures exists x :: x in s && s == {x}
  {
    var x := SomeMember(s);
    assert |s - {x}| == 0;
    assert s == {x};
  }

  /** A recorded identifier must be present in the database; a title must be carried by exactly one
      session. Anything else leaves the attempt unattributed. */
  function ResolveSession(a: Attempt, present: Sessions): (r: Option<string>)
    ensures r.Some? ==> r.value in present
  {
    if a.sessionId.Some? && a.sessionId.value != "" then
      if a.sessionId.value in present then a.sessionId else None
    else if a.title.Some? && a.title.value != "" && |Titled(present, a.title.value)| == 1 then
      Some(TheOnly(Titled(present, a.title.value)))
    else None
  }

  /** An attempt resolves to a session exactly when it names it, or names none and the session is the
      only one carrying its title. */
  lemma ResolvesIff(a: Attempt, present: Sessions, s: string)
    ensures ResolveSession(a, present) == Some(s) <==>
            && s in present
            && (if a.sessionId.Some? && a.sessionId.value != "" then a.sessionId.value == s
                else
                  && a.title.Some? && a.title.value != "" && a.title.value in present[s]
                  && forall t :: t in present && a.title.value in present[t] ==> t == s)
  {
    if a.title.Some? {
      var titled := Titled(present, a.title.value);
      if s in titled && forall t :: t in present && a.title.value in present[t] ==> t == s {
        assert titled == {s};
        assert s in {TheOnly(titled)};
      }
      if |titled| == 1 {
        assert titled == {TheOnly(titled)};
        assert forall t :: t in present && a.title.value in present[t] ==> t in titled;
      }
    }
  }

  /** The session an attempt is charged to, if any; an empty identifier charges nobody. */
  function Charged(a: Attempt, present: Sessions): Option<string> {
    var r := ResolveSession(a, present);
    if a.readable && r.Some? && r.value != "" then r else None
  }

  /** A readable attempt belongs to the session it names, or to the only one carrying its title. */
  ghost predicate Belongs(a: Attempt, present: Sessions, s: string) {
    && a.readable && s != "" && s in present
    && (if a.sessionId.Some? && a.sessionId.value != "" then a.sessionId.value == s
        else
          && a.title.Some? && a.title.value != "" && a.title.value in present[s]
          && forall t :: t in present && a.title.value in present[t] ==> t == s)
  }

  lemma ChargedIff(a: Attempt, present: Sessions, s: string)
    ensures Charged(a, present) == Some(s) <==> Belongs(a, present, s)
    ensures Charged(a, present).Some? <==> exists t :: Belongs(a, present, t)
  {
    hide ResolveSession;
    ResolvesIff(a, present, s);
    if Charged(a, present).Some? {
      ResolvesIff(a, present, Charged(a, present).value);
      assert Belongs(a, present, Charged(a, present).value);
    }
    if t :| Belongs(a, present, t) { ResolvesIff(a, present, t); }
  }

  /** The readable attempts and the sessions of the database correspond one to one. */
  ghost predicate OneToOne(attempts: seq<Attempt>, present: Sessions) {
    && (forall i :: 0 <= i < |attempts| && attempts[i].readable ==> exists s :: Belongs(attempts[i], present, s))
    && (forall i, j, s :: 0 <= i < j < |attempts| && Belongs(attempts[i], present, s) ==>
          !Belongs(attempts[j], present, s))
    && (forall s :: s in present ==> exists i :: 0 <= i < |attempts| && Belongs(attempts[i], present, s))
  }

  /** The attempts that claim a session, in order. */
  function Claimants(attempts: seq<Attempt>, present: Sessions, s: string): seq<string> {
    if attempts == [] then []
    else
      var last := attempts[|attempts| - 1];
      Claimants(attempts[..|attempts| - 1], present, s)
      + (if Charged(last, present) == Some(s) then [last.eventDir] else [])
  }

  function Unattributed(attempts: seq<Attempt>, present: Sessions): seq<string> {
    if attempts == [] then []
    else
      var last := attempts[|attempts| - 1];
      Unattributed(attempts[..|attempts| - 1], present)
      + (if last.readable && Charged(last, present).None? then [last.eventDir] else [])
  }

  /** One pass over the attempts, then three tests: nobody unattributed, no session claimed twice, no
      session unclaimed. Together they say the correspondence is one to one. */
  method Settle(attempts: seq<Attempt>, present: Sessions)
    returns (claimed: map<string, seq<string>>, unattributed: seq<string>, established: bool)
    ensures unattributed == Unattributed(attempts, present)
    ensures forall s :: s in claimed <==> Claimants(attempts, present, s) != []
    ensures forall s :: s in claimed ==> claimed[s] == Claimants(attempts, present, s)
    ensures established <==> OneToOne(attempts, present)
  {
    hide Charged, OneToOne, Belongs;
    claimed, unattributed := map[], [];
    for i := 0 to |attempts|
      invariant unattributed == Unattributed(attempts[..i], present)
      invariant forall s :: s in claimed <==> Claimants(attempts[..i], present, s) != []
      invariant forall s :: s in claimed ==> claimed[s] == Claimants(attempts[..i], present, s)
    {
      var a := attempts[i];
      assert attempts[..i + 1][..i] == attempts[..i];
      var session := Charged(a, present);
      if session.Some? {
        var before := if session.value in claimed then claimed[session.value] else [];
        claimed := claimed[session.value := before + [a.eventDir]];
      } else if a.readable {
        unattributed := unattributed + [a.eventDir];
      }
      ChargedIsReadable(a, present);
    }
    assert attempts[..|attempts|] == attempts;
    var reused := set s | s in claimed && |claimed[s]| > 1;
    var unaccounted := present.Keys - claimed.Keys;
    established := unattributed == [] && reused == {} && unaccounted == {};
    assert reused == {} <==> forall s :: |Claimants(attempts, present, s)| <= 1 by {
      assert forall s :: s in reused <==> |Claimants(attempts, present, s)| > 1;
    }
    assert unaccounted == {} <==> forall s :: s in present ==> Claimants(attempts, present, s) != [] by {
      assert forall s :: s in unaccounted <==> s in present && Claimants(attempts, present, s) == [];
    }
    EstablishedIff(attempts, present);
  }

  lemma ChargedIsReadable(a: Attempt, present: Sessions)
    ensures Charged(a, present).Some? ==> a.readable && Charged(a, present).value in present
  {
  }

  lemma {:induction false} ClaimantsCount(attempts: seq<Attempt>, present: Sessions, s: string)
    ensures Claimants(attempts, present, s) != [] <==>
            exists i :: 0 <= i < |attempts| && Charged(attempts[i], present) == Some(s)
    ensures |Claimants(attempts, present, s)| > 1 <==>
            exists i, j :: 0 <= i < j < |attempts|
                           && Charged(attempts[i], present) == Some(s) && Charged(attempts[j], present) == Some(s)
  {
    if attempts != [] {
      hide Charged;
      var n := |attempts| - 1;
      var init := attempts[..n];
      ClaimantsCount(init, present, s);
      assert forall i :: 0 <= i < n ==> init[i] == attempts[i];
      if Claimants(init, present, s) != [] {
        var i :| 0 <= i < n && Charged(init[i], present) == Some(s);
        assert Charged(attempts[i], present) == Some(s);
      }
      if |Claimants(init, present, s)| > 1 {
        var i, j :| 0 <= i < j < n && Charged(init[i], present) == Some(s) && Charged(init[j], present) == Some(s);
        assert Charged(attempts[i], present) == Some(s) && Charged(attempts[j], present) == Some(s);
      }
    }
  }

  lemma {:induction false} NobodyUnattributed(attempts: seq<Attempt>, present: Sessions)
    ensures Unattributed(attempts, present) == [] <==>
            forall i :: 0 <= i < |attempts| && attempts[i].readable ==> Charged(attempts[i], present).Some?
  {
    if attempts != [] {
      hide Charged;
      var init := attempts[..|attempts| - 1];
      NobodyUnattributed(init, present);
      assert forall i :: 0 <= i < |init| ==> init[i] == attempts[i];
    }
  }

  lemma EstablishedIff(attempts: seq<Attempt>, present: Sessions)
    ensures OneToOne(attempts, present) <==>
            && Unattributed(attempts, present) == []
            && (forall s :: |Claimants(attempts, present, s)| <= 1)
            && (forall s :: s in present ==> Claimants(attempts, present, s) != [])
  {
    hide Charged, Claimants, Unattributed, Belongs;
    NobodyUnattributed(attempts, present);
    forall i | 0 <= i < |attempts|
      ensures Charged(attempts[i], present).Some? <==> exists t :: Belongs(attempts[i], present, t)
    {
      ChargedIff(attempts[i], present, "");
    }
    forall s
      ensures Claimants(attempts, present, s) != [] <==>
              exists i :: 0 <= i < |attempts| && Belongs(attempts[i], present, s)
      ensures |Claimants(attempts, present, s)| <= 1 <==>
              forall i, j :: 0 <= i < j < |attempts| && Belongs(attempts[i], present, s) ==>
                !Belongs(attempts[j], present, s)
    {
      ClaimsBelong(attempts, present, s);
    }
    if OneToOne(attempts, present) {
      forall s ensures |Claimants(attempts, present, s)| <= 1 {
        assert forall i, j :: 0 <= i < j < |attempts| && Belongs(attempts[i], present, s) ==>
                 !Belongs(attempts[j], present, s);
      }
    } else if i, j, s :|
      0 <= i < j < |attempts| && Belongs(attempts[i], present, s) && Belongs(attempts[j], present, s)
    {
      assert |Claimants(attempts, present, s)| > 1;
    }
  }

  lemma ClaimsBelong(attempts: seq<Attempt>, present: Sessions, s: string)
    ensures Claimants(attempts, present, s) != [] <==>
            exists i :: 0 <= i < |attempts| && Belongs(attempts[i], present, s)
    ensures |Claimants(attempts, present, s)| > 1 <==>
            exists i, j :: 0 <= i < j < |attempts|
                           && Belongs(attempts[i], present, s) && Belongs(attempts[j], present, s)
  {
    hide Charged, Claimants, Belongs;
    ClaimantsCount(attempts, present, s);
    forall i | 0 <= i < |attempts|
      ensures Charged(attempts[i], present) == Some(s) <==> Belongs(attempts[i], present, s)
    {
      ChargedIff(attempts[i], present, s);
    }
  }
}
