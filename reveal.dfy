/**
 * The scroll reveal: every `.reveal` element is observed once, and the
 * first entry that finds it intersecting gives it the `active` class and
 * stops observing it. The browser's intersection geometry (threshold 0.2,
 * bottom margin -100px) is not modelled: each entry carries the
 * `isIntersecting` flag the browser computed.
 */
module Reveal {

  /** An IntersectionObserverEntry, reduced to what the callback reads. */
  datatype Entry<T> = Entry(target: T, isIntersecting: bool)

  /** The targets a batch of entries is about. */
  function Targets<T>(entries: seq<Entry<T>>): set<T>
  {
    set i | 0 <= i < |entries| :: entries[i].target
  }

  /** The targets of the intersecting entries of a batch. */
  function Entered<T>(entries: seq<Entry<T>>): set<T>
  {
    if entries == [] then {}
    else
      var last := entries[|entries| - 1];
      Entered(entries[..|entries| - 1]) + (if last.isIntersecting then {last.target} else {})
  }

  /** A target is entered exactly when some entry of the batch finds it
    * intersecting. */
  lemma {:induction false} EnteredMeansIntersecting<T>(entries: seq<Entry<T>>, t: T)
    ensures t in Entered(entries) <==>
            exists i :: 0 <= i < |entries| && entries[i].target == t && entries[i].isIntersecting
  {
    if entries != [] {
      var front := entries[..|entries| - 1];
      EnteredMeansIntersecting(front, t);
      if t in Entered(front) {
        var i :| 0 <= i < |front| && front[i].target == t && front[i].isIntersecting;
        assert entries[i] == front[i];
      }
      if exists i :: 0 <= i < |entries| && entries[i].target == t && entries[i].isIntersecting {
        var i :| 0 <= i < |entries| && entries[i].target == t && entries[i].isIntersecting;
        if i < |front| {
          assert front[i] == entries[i];
        }
      }
    }
  }

  /** Only targets of the batch can be entered. */
  lemma EnteredWithinTargets<T>(entries: seq<Entry<T>>)
    ensures Entered(entries) <= Targets(entries)
  {
    forall t | t in Entered(entries) ensures t in Targets(entries) {
      EnteredMeansIntersecting(entries, t);
    }
  }

  /** A batch without an intersecting entry enters nothing. */
  lemma NothingIntersecting<T>(entries: seq<Entry<T>>)
    requires forall i :: 0 <= i < |entries| ==> !entries[i].isIntersecting
    ensures Entered(entries) == {}
  {
    forall t | t in Entered(entries) ensures false {
      EnteredMeansIntersecting(entries, t);
    }
  }

  /** The reveal observer and the `active` class of the reveal elements. */
  class RevealObserver<T(==)> {
    /** The elements the observer still observes. */
    var observed: set<T>
    /** The reveal elements that carry the `active` class. */
    var active: set<T>
    /** Every `.reveal` element of the page. */
    ghost const elements: set<T>

    /** Each reveal element is either still observed or already active,
      * never both. */
    ghost predicate Valid()
      reads this
    {
      observed + active == elements && observed !! active
    }

    /** Page load: the observer watches every reveal element, and none is
      * active yet. */
    constructor (revealElements: set<T>)
      ensures Valid()
      ensures elements == revealElements && observed == revealElements && active == {}
    {
      elements := revealElements;
      observed := revealElements;
      active := {};
    }

    /** The observer callback. The browser delivers entries only for
      * targets it still observes. */
    method OnEntries(entries: seq<Entry<T>>)
      requires Valid()
      requires Targets(entries) <= observed
      modifies this
      ensures Valid()
      ensures active == old(active) + Entered(entries)
      ensures observed == old(observed) - Entered(entries)
    {
      var i := 0;
      while i < |entries|
        invariant 0 <= i <= |entries|
        invariant active == old(active) + Entered(entries[..i])
        invariant observed == old(observed) - Entered(entries[..i])
        invariant Valid()
      {
        var entry := entries[i];
        assert entries[..i + 1][..i] == entries[..i];
        assert entry.target in Targets(entries);
        if entry.isIntersecting {
          active := active + {entry.target};
          observed := observed - {entry.target};
        }
        i := i + 1;
      }
      assert entries[..|entries|] == entries;
    }
  }

  /** What a callback does to the two sets, as a function of the batch: an
    * entered target was not active before (each element is revealed at most
    * once), and it moves from observed to active. */
  lemma CallbackMovesEntered<T>(observed: set<T>, active: set<T>, entries: seq<Entry<T>>)
    requires observed !! active
    requires Targets(entries) <= observed
    ensures Entered(entries) !! active
    ensures (observed - Entered(entries)) !! (active + Entered(entries))
    ensures (observed - Entered(entries)) + (active + Entered(entries)) == observed + active
  {
    EnteredWithinTargets(entries);
  }
}
