/**
 * SessionContainer: the process-wide list of active session ids. A new
 * session gets the text of a random UUID; removing a session removes its
 * first occurrence.
 */
module Sessions {
  import Seqs

  class SessionContainer {
    var sessions: seq<string>

    /** Session ids are random UUIDs, so no id is listed twice. */
    predicate Valid()
      reads this
    {
      Seqs.Distinct(sessions)
    }

    constructor()
      ensures sessions == [] && Valid()
    {
      sessions := [];
    }

    /**
     * isActive: whether the id is in the list, that is, exactly when
     * removing it would shorten the list.
     */
    predicate IsActive(session: string): (b: bool)
      reads this
      ensures b <==> |Seqs.RemoveFirst(sessions, session)| < |sessions|
    {
      session in sessions
    }

    /** addSession: appends the new id (a UUID no session has yet) and returns it. */
    method AddSession(newId: string) returns (r: string)
      requires Valid() && !IsActive(newId)
      modifies this
      ensures r == newId
      ensures sessions == old(sessions) + [r]
      ensures Valid() && IsActive(r)
      ensures forall s :: s != r ==> (IsActive(s) <==> old(IsActive(s)))
    {
      r := newId;
      sessions := sessions + [r];
    }

    /** removeSession: removes the first occurrence of the id; an absent id changes nothing. */
    method RemoveSession(session: string)
      requires Valid()
      modifies this
      ensures sessions == Seqs.RemoveFirst(old(sessions), session)
      ensures !old(IsActive(session)) ==> sessions == old(sessions)
      ensures multiset(sessions) == multiset(old(sessions)) - multiset{session}
      ensures Valid() && !IsActive(session)
      ensures forall s :: s != session ==> (IsActive(s) <==> old(IsActive(s)))
    {
      var rest := Seqs.RemoveFirst(sessions, session);
      Seqs.RemoveFirstMultiset(sessions, session);
      Seqs.RemoveFirstOfDistinct(sessions, session);
      forall s | s != session
        ensures s in rest <==> s in sessions
      {
        assert multiset(rest)[s] == multiset(sessions)[s];
      }
      sessions := rest;
    }
  }
}
