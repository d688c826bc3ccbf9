/**
 * The transform buffer: the index map and the list it points into, against a map from frame pairs to latest
 * transforms.
 */
module TfBuffers {
  import opened Bytes

  /** The frame a transform starts from and the one it leads to. */
  type Key = (string, string)

  datatype Transform<P> = Transform(parent: string, child: string, stamp: int, pose: P) {
    function Key(): Key { (parent, child) }
    function Reversed(): Key { (child, parent) }
  }

  /** Whether a frame name matches a pattern; matching itself is not modelled. */
  type Pattern = string -> bool

  predicate MatchesAny<P>(patterns: seq<Pattern>, t: Transform<P>) {
    exists i :: 0 <= i < |patterns| && (patterns[i](t.parent) || patterns[i](t.child))
  }

  datatype Filter = Filter(excluded: seq<Pattern>, included: seq<Pattern>)

  predicate Keeps<P>(f: Filter, t: Transform<P>) {
    !MatchesAny(f.excluded, t) && (f.included == [] || MatchesAny(f.included, t))
  }

  // ---- the reference: the transforms accepted since the last reset ---------------------------

  /** The latest transform for every pair of frames. */
  function Latest<P>(log: seq<Transform<P>>): map<Key, Transform<P>>
    decreases |log|
  {
    if log == [] then map[]
    else
      var t := log[|log| - 1];
      Latest(log[..|log| - 1])[t.Key() := t]
  }

  /** The pairs of frames in the order they were first seen. */
  function FirstSeen<P>(log: seq<Transform<P>>): seq<Key>
    decreases |log|
  {
    if log == [] then []
    else
      var before, t := FirstSeen(log[..|log| - 1]), log[|log| - 1];
      if t.Key() in Latest(log[..|log| - 1]) then before else before + [t.Key()]
  }

  /** A transform that runs against one already there, when there is none in its own direction, resets everything. */
  predicate Resets<P>(log: seq<Transform<P>>, t: Transform<P>) {
    t.Key() !in Latest(log) && t.Reversed() in Latest(log)
  }

  /**
   * The log after one more transform, or None if that was a reset; after a reset the rest of a message is not looked
   * at.
   */
  function AbsorbOne<P>(f: Filter, log: Option<seq<Transform<P>>>, t: Transform<P>): Option<seq<Transform<P>>> {
    if log.None? || !Keeps(f, t) then log
    else if Resets(log.value, t) then None
    else Some(log.value + [t])
  }

  /**
   * A transform that the filter drops changes nothing; one whose pair is not in the log while the reversed pair is
   * resets it, which one from a frame to itself never does; any other is added.
   */
  lemma AbsorbOneExactly<P>(f: Filter, log: seq<Transform<P>>, t: Transform<P>)
    ensures AbsorbOne(f, Some(log), t)
            == if !Keeps(f, t) then Some(log)
               else if (forall j :: 0 <= j < |log| ==> log[j].parent != t.parent || log[j].child != t.child)
                       && (exists j :: 0 <= j < |log| && log[j].parent == t.child && log[j].child == t.parent) then None
               else Some(log + [t])
    ensures t.parent == t.child ==> AbsorbOne(f, Some(log), t).Some?
  {
    InLatest(log, t.parent, t.child);
    InLatest(log, t.child, t.parent);
  }

  lemma {:induction false} InLatest<P>(log: seq<Transform<P>>, parent: string, child: string)
    ensures (parent, child) in Latest(log)
            <==> exists j :: 0 <= j < |log| && log[j].parent == parent && log[j].child == child
    decreases |log|
  {
    if log != [] {
      var k := |log| - 1;
      InLatest(log[..k], parent, child);
      if j :| 0 <= j < |log| && log[j].parent == parent && log[j].child == child {
        assert j < k ==> log[..k][j] == log[j];
      }
      if (parent, child) in Latest(log[..k]) {
        var j :| 0 <= j < k && log[..k][j].parent == parent && log[..k][j].child == child;
        assert log[j] == log[..k][j];
      }
    }
  }

  /** The log after the first k transforms of a message. */
  function Absorb<P>(f: Filter, log: seq<Transform<P>>, message: seq<Transform<P>>, k: nat): Option<seq<Transform<P>>>
    requires k <= |message|
    decreases k
  {
    if k == 0 then Some(log) else AbsorbOne(f, Absorb(f, log, message, k - 1), message[k - 1])
  }

  /** The log after a message. */
  function AfterMessage<P>(f: Filter, log: seq<Transform<P>>, message: seq<Transform<P>>): seq<Transform<P>> {
    var a := Absorb(f, log, message, |message|);
    if a.None? then [] else a.value
  }

  function AfterMessages<P>(f: Filter, messages: seq<seq<Transform<P>>>): seq<Transform<P>>
    decreases |messages|
  {
    if messages == [] then []
    else AfterMessage(f, AfterMessages(f, messages[..|messages| - 1]), messages[|messages| - 1])
  }

  /** The latest transform of a pair is its last one in the log. */
  lemma {:induction false} LatestIsLast<P>(log: seq<Transform<P>>, j: nat)
    requires j < |log|
    requires forall k :: j < k < |log| ==> log[k].parent != log[j].parent || log[k].child != log[j].child
    ensures (log[j].parent, log[j].child) in Latest(log) && Latest(log)[(log[j].parent, log[j].child)] == log[j]
    decreases |log|
  {
    if j < |log| - 1 { LatestIsLast(log[..|log| - 1], j); }
  }

  lemma {:induction false} FirstSeenIsKeys<P>(log: seq<Transform<P>>)
    ensures forall k :: k in Latest(log) <==> k in FirstSeen(log)
    ensures forall i, j :: 0 <= i < j < |FirstSeen(log)| ==> FirstSeen(log)[i] != FirstSeen(log)[j]
    ensures forall k :: k in Latest(log) ==> Latest(log)[k].Key() == k
    decreases |log|
  {
    if log != [] { FirstSeenIsKeys(log[..|log| - 1]); }
  }

  /** No two distinct frames in both directions. */
  ghost predicate OneDirection<P>(log: seq<Transform<P>>) {
    forall a, b :: (a, b) in Latest(log) && (b, a) in Latest(log) ==> a == b
  }

  lemma LatestOfMore<P>(log: seq<Transform<P>>, t: Transform<P>)
    ensures Latest(log + [t]) == Latest(log)[t.Key() := t]
    ensures FirstSeen(log + [t]) == if t.Key() in Latest(log) then FirstSeen(log) else FirstSeen(log) + [t.Key()]
  {
    assert (log + [t])[..|log|] == log;
  }

  lemma OneMoreDirection<P>(log: seq<Transform<P>>, t: Transform<P>)
    requires OneDirection(log) && !Resets(log, t)
    ensures OneDirection(log + [t])
  {
    LatestOfMore(log, t);
  }

  lemma {:induction false} AbsorbKeepsOneDirection<P>(f: Filter, log: seq<Transform<P>>, message: seq<Transform<P>>,
                                                      k: nat)
    requires k <= |message| && OneDirection(log)
    ensures var a := Absorb(f, log, message, k); a.Some? ==> OneDirection(a.value)
    decreases k
  {
    if k > 0 {
      AbsorbKeepsOneDirection(f, log, message, k - 1);
      var before, t := Absorb(f, log, message, k - 1), message[k - 1];
      if before.Some? && !Resets(before.value, t) { OneMoreDirection(before.value, t); }
    }
  }

  /** After any messages, no two distinct frames are stored in both directions. */
  lemma {:induction false} NeverBothDirections<P>(f: Filter, messages: seq<seq<Transform<P>>>)
    ensures OneDirection(AfterMessages(f, messages))
    decreases |messages|
  {
    if messages != [] {
      NeverBothDirections(f, messages[..|messages| - 1]);
      var last := messages[|messages| - 1];
      AbsorbKeepsOneDirection(f, AfterMessages(f, messages[..|messages| - 1]), last, |last|);
    }
  }

  // ---- the index map and the list ------------------------------------------------------------

  /** A static transform is handed on without its stamp. */
  function Shown<P>(isStatic: bool, t: Transform<P>): Transform<P> { if isStatic then t.(stamp := 0) else t }

  /** A bijection from the keys onto their positions. */
  ghost predicate Indexes(ids: map<Key, nat>, keys: seq<Key>) {
    && (forall i :: 0 <= i < |keys| ==> keys[i] in ids && ids[keys[i]] == i)
    && (forall k :: k in ids ==> ids[k] < |keys| && keys[ids[k]] == k)
  }

  /** Every position holds the latest transform of its pair, up to the stamp if that is not shown. */
  ghost predicate Holds<P>(isStatic: bool, ts: seq<Transform<P>>, keys: seq<Key>, latest: map<Key, Transform<P>>) {
    && |ts| == |keys|
    && forall i :: 0 <= i < |ts| ==> keys[i] in latest && Shown(isStatic, ts[i]) == Shown(isStatic, latest[keys[i]])
  }

  /** The index map and the list together stand for these keys and latest transforms. */
  ghost predicate Stands<P>(isStatic: bool, ids: map<Key, nat>, ts: seq<Transform<P>>, keys: seq<Key>,
                            latest: map<Key, Transform<P>>)
  {
    Indexes(ids, keys) && Holds(isStatic, ts, keys, latest) && ids.Keys == latest.Keys
  }

  lemma NewPair<P>(isStatic: bool, ids: map<Key, nat>, ts: seq<Transform<P>>, keys: seq<Key>,
                   latest: map<Key, Transform<P>>, t: Transform<P>)
    requires Stands(isStatic, ids, ts, keys, latest) && t.Key() !in ids
    ensures Stands(isStatic, ids[t.Key() := |ts|], ts + [t], keys + [t.Key()], latest[t.Key() := t])
  {
  }

  lemma KnownPair<P>(isStatic: bool, ids: map<Key, nat>, ts: seq<Transform<P>>, keys: seq<Key>,
                     latest: map<Key, Transform<P>>, t: Transform<P>)
    requires Stands(isStatic, ids, ts, keys, latest) && t.Key() in ids
    ensures ids[t.Key()] < |ts|
    ensures Stands(isStatic, ids, ts[ids[t.Key()] := t], keys, latest[t.Key() := t])
  {
  }

  // ---- the class -------------------------------------------------------------------------------

  class TfBuffer<P> {
    const isStatic: bool
    const filter: Filter
    var tfId: map<Key, nat>
    var transforms: seq<Transform<P>>
    var subscribed: bool

    /** What has been accepted since the last reset, and every list handed on. */
    ghost var log: seq<Transform<P>>
    ghost var published: seq<seq<Transform<P>>>

    /** The index map and the list agree with the reference. */
    ghost predicate Agrees()
      reads this
    {
      Stands(isStatic, tfId, transforms, FirstSeen(log), Latest(log))
    }

    /** Between messages static transforms have no stamp, and no two frames are stored in both directions. */
    ghost predicate Valid()
      reads this
    {
      && Agrees() && OneDirection(log)
      && forall i :: 0 <= i < |transforms| ==> transforms[i] == Shown(isStatic, transforms[i])
    }

    constructor (isStatic: bool, filter: Filter)
      ensures Valid() && log == [] && published == [] && subscribed
      ensures this.isStatic == isStatic && this.filter == filter
    {
      this.isStatic := isStatic;
      this.filter := filter;
      tfId := map[];
      transforms := [];
      subscribed := true;
      log := [];
      published := [];
    }

    method Matches(patterns: seq<Pattern>, t: Transform<P>) returns (matched: bool)
      ensures matched <==> MatchesAny(patterns, t)
    {
      matched := false;
      for i := 0 to |patterns|
        invariant forall j :: 0 <= j < i ==> !patterns[j](t.parent) && !patterns[j](t.child)
      {
        if patterns[i](t.parent) || patterns[i](t.child) {
          return true;
        }
      }
    }

    method Accepts(t: Transform<P>) returns (kept: bool)
      ensures kept <==> Keeps(filter, t)
      ensures kept <==>
                && (forall i :: 0 <= i < |filter.excluded| ==>
                      !filter.excluded[i](t.parent) && !filter.excluded[i](t.child))
                && (filter.included == []
                    || exists i :: 0 <= i < |filter.included|
                                   && (filter.included[i](t.parent) || filter.included[i](t.child)))
    {
      if filter.excluded != [] {
        var matched := Matches(filter.excluded, t);
        if matched {
          return false;
        }
      }
      if filter.included != [] {
        kept := Matches(filter.included, t);
      } else {
        kept := true;
      }
    }

    /** A transform that resets nothing goes to its pair's position, or to a new one at the end. */
    method Enter(t: Transform<P>)
      requires Agrees()
      modifies this`tfId, this`transforms, this`log
      ensures log == old(log) + [t] && Agrees()
      ensures (t.parent, t.child) in old(tfId) ==>
                && old(tfId)[(t.parent, t.child)] < |old(transforms)| && tfId == old(tfId)
                && transforms == old(transforms)[old(tfId)[(t.parent, t.child)] := t]
      ensures (t.parent, t.child) !in old(tfId) ==>
                && transforms == old(transforms) + [t]
                && tfId == old(tfId)[(t.parent, t.child) := |old(transforms)|]
    {
      ghost var keys, latest := FirstSeen(log), Latest(log);
      assert t.Key() in tfId <==> t.Key() in latest;
      LatestOfMore(log, t);
      var id := t.Key();
      if id !in tfId {
        NewPair(isStatic, tfId, transforms, keys, latest, t);
        tfId := tfId[id := |transforms|];
        transforms := transforms + [t];
      } else {
        KnownPair(isStatic, tfId, transforms, keys, latest, t);
        transforms := transforms[tfId[id] := t];
      }
      log := log + [t];
    }

    /** One transform of a message: it is ignored, entered, or a reset, after which nothing is left. */
    method AbsorbTransform(t: Transform<P>) returns (reset: bool)
      requires Agrees()
      modifies this`tfId, this`transforms, this`log, this`subscribed
      ensures Agrees()
      ensures AbsorbOne(filter, Some(old(log)), t) == if reset then None else Some(log)
      ensures reset <==> Keeps(filter, t) && (t.parent, t.child) !in old(tfId) && (t.child, t.parent) in old(tfId)
      ensures reset ==> transforms == [] && tfId == map[] && log == [] && !subscribed
      ensures !reset ==> subscribed == old(subscribed)
    {
      var kept := Accepts(t);
      if !kept {
        return false;
      }
      if t.Key() !in tfId && t.Reversed() in tfId {
        tfId := map[];
        transforms := [];
        subscribed := false;
        log := [];
        return true;
      }
      Enter(t);
      return false;
    }

    /** The transforms of a message, up to a reset. */
    method AbsorbAll(message: seq<Transform<P>>) returns (reset: bool)
      requires Agrees()
      modifies this`tfId, this`transforms, this`log, this`subscribed
      ensures Agrees()
      ensures Absorb(filter, old(log), message, |message|) == if reset then None else Some(log)
      ensures reset ==> transforms == [] && tfId == map[] && log == [] && !subscribed
      ensures !reset ==> subscribed == old(subscribed)
    {
      ghost var log0 := log;
      for i := 0 to |message|
        invariant Agrees() && subscribed == old(subscribed)
        invariant Absorb(filter, log0, message, i) == Some(log)
      {
        reset := AbsorbTransform(message[i]);
        if reset {
          AbsorbStops(filter, log0, message, i + 1, |message|);
          return;
        }
      }
      return false;
    }

    /**
     * One message: either some transform in it is a reset and nothing is left, or the list, in first-seen order,
     * holds the latest transform of every pair and is handed on.
     */
    method Tf2Callback(message: seq<Transform<P>>)
      requires Valid()
      modifies this
      ensures Valid() && log == AfterMessage(filter, old(log), message)
      ensures var a := Absorb(filter, old(log), message, |message|);
              && (a.None? ==> transforms == [] && tfId == map[] && !subscribed && published == old(published))
              && (a.Some? ==> subscribed == old(subscribed) && published == old(published) + [transforms])
      ensures isStatic ==> forall i :: 0 <= i < |transforms| ==> transforms[i].stamp == 0
      ensures forall i, j | 0 <= i < |transforms| && 0 <= j < |log|
                && transforms[i].parent == log[j].parent && transforms[i].child == log[j].child
                && (forall k :: j < k < |log| ==> log[k].parent != log[j].parent || log[k].child != log[j].child) ::
                  transforms[i] == if isStatic then log[j].(stamp := 0) else log[j]
    {
      AbsorbKeepsOneDirection(filter, log, message, |message|);
      var reset := AbsorbAll(message);
      if reset {
        return;
      }
      if isStatic {
        ClearStamps();
      }
      published := published + [transforms];
      ListIsLatest();
    }

    /** Every position of the list shows the last transform of its pair. */
    lemma ListIsLatest()
      requires Valid()
      ensures forall i, j | 0 <= i < |transforms| && 0 <= j < |log|
                && transforms[i].parent == log[j].parent && transforms[i].child == log[j].child
                && (forall k :: j < k < |log| ==> log[k].parent != log[j].parent || log[k].child != log[j].child) ::
                  transforms[i] == if isStatic then log[j].(stamp := 0) else log[j]
    {
      forall i, j | 0 <= i < |transforms| && 0 <= j < |log|
                    && transforms[i].parent == log[j].parent && transforms[i].child == log[j].child
                    && (forall k :: j < k < |log| ==> log[k].parent != log[j].parent || log[k].child != log[j].child)
        ensures transforms[i] == if isStatic then log[j].(stamp := 0) else log[j]
      {
        LatestIsLast(log, j);
        FirstSeenIsKeys(log);
        assert FirstSeen(log)[i] in Latest(log);
      }
    }

    method ClearStamps()
      requires isStatic
      modifies this`transforms
      ensures |transforms| == |old(transforms)|
      ensures forall i :: 0 <= i < |transforms| ==> transforms[i] == Shown(isStatic, old(transforms)[i])
      ensures forall i :: 0 <= i < |transforms| ==> transforms[i] == old(transforms)[i].(stamp := 0)
    {
      for i := 0 to |transforms|
        invariant |transforms| == |old(transforms)|
        invariant forall j :: 0 <= j < i ==> transforms[j] == Shown(isStatic, old(transforms)[j])
        invariant forall j :: i <= j < |transforms| ==> transforms[j] == old(transforms)[j]
      {
        transforms := transforms[i := transforms[i].(stamp := 0)];
      }
    }
  }

  /** A reset ends the message. */
  lemma {:induction false} AbsorbStops<P>(f: Filter, log: seq<Transform<P>>, message: seq<Transform<P>>, j: nat, k: nat)
    requires j <= k <= |message| && Absorb(f, log, message, j).None?
    ensures Absorb(f, log, message, k).None?
    decreases k
  {
    if j < k { AbsorbStops(f, log, message, j, k - 1); }
  }
}
