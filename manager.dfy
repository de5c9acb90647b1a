/**
 * The `SceneManager` of src/scene/manager.rs: a registry from scene name to
 * scene, and the request to change to a registered scene, which is broadcast
 * as a `ChangeSceneEvent` on the event bus.
 */
module Manager {
  import opened Wrappers
  import opened Events

  /** The message `render_scene` panics with when the name is not registered. */
  const MissingSceneMessage := "Scene instance does not exist"

  /** How `render_scene` ends: it panics, or it returns `Ok(())` after the
      dispatch; the latter also records the scene the event referred to and
      the state the listeners left the event in, which the source drops. */
  datatype RenderOutcome<S> =
    | Panicked(message: string)
    | Dispatched(target: S, final: CancelState)

  /** The scene map after the `add_scene` calls `adds`, made in order on `m`. */
  function AfterAdds<S>(m: map<string, S>, adds: seq<(string, S)>): map<string, S>
    decreases |adds|
  {
    if adds == [] then m
    else
      var last := adds[|adds| - 1];
      AfterAdds(m, adds[..|adds| - 1])[last.0 := last.1]
  }

  /** One more `add_scene` call extends the sequence: a run of `AddScene`
      calls from `m` ends in `AfterAdds` of the whole run. */
  lemma AfterAddsStep<S>(m: map<string, S>, adds: seq<(string, S)>, x: (string, S))
    ensures AfterAdds(AfterAdds(m, adds), [x]) == AfterAdds(m, adds + [x])
  {
    assert (adds + [x])[..|adds|] == adds;
  }

  /** The names that the calls `adds` register. */
  function AddedNames<S>(adds: seq<(string, S)>): set<string>
  {
    set i | 0 <= i < |adds| :: adds[i].0
  }

  /** One entry per distinct name: the map holds exactly the names it held
      before and the names that were added. */
  lemma {:induction false} AfterAddsKeys<S>(m: map<string, S>, adds: seq<(string, S)>)
    ensures AfterAdds(m, adds).Keys == m.Keys + AddedNames(adds)
    decreases |adds|
  {
    if adds != [] {
      var init := adds[..|adds| - 1];
      AfterAddsKeys(m, init);
      assert AddedNames(adds) == AddedNames(init) + {adds[|adds| - 1].0} by {
        forall n | n in AddedNames(adds) ensures n in AddedNames(init) + {adds[|adds| - 1].0} {
          var i :| 0 <= i < |adds| && adds[i].0 == n;
          if i < |adds| - 1 { assert init[i] == adds[i]; }
        }
        forall n | n in AddedNames(init) ensures n in AddedNames(adds) {
          var i :| 0 <= i < |init| && init[i].0 == n;
          assert adds[i] == init[i];
        }
      }
    }
  }

  /** A name is mapped to the scene of the most recent call that added it. */
  lemma {:induction false} MostRecentAddWins<S>(m: map<string, S>, adds: seq<(string, S)>, i: nat)
    requires i < |adds|
    requires forall j :: i < j < |adds| ==> adds[j].0 != adds[i].0
    ensures adds[i].0 in AfterAdds(m, adds) && AfterAdds(m, adds)[adds[i].0] == adds[i].1
    decreases |adds|
  {
    if i < |adds| - 1 {
      var init := adds[..|adds| - 1];
      assert init[i] == adds[i];
      forall j | i < j < |init| ensures init[j].0 != init[i].0 {
        assert init[j] == adds[j];
      }
      MostRecentAddWins(m, init, i);
    }
  }

  /** A name that no call adds keeps its entry, or stays absent. */
  lemma {:induction false} UnaddedNameUnchanged<S>(m: map<string, S>, adds: seq<(string, S)>, name: string)
    requires forall i :: 0 <= i < |adds| ==> adds[i].0 != name
    ensures name in AfterAdds(m, adds) <==> name in m
    ensures name in m ==> AfterAdds(m, adds)[name] == m[name]
    decreases |adds|
  {
    if adds != [] {
      var init := adds[..|adds| - 1];
      forall i | 0 <= i < |init| ensures init[i].0 != name {
        assert init[i] == adds[i];
      }
      UnaddedNameUnchanged(m, init, name);
    }
  }

  /** Two adjacent `add_scene` calls for different names can be swapped
      without changing the result. */
  lemma {:induction false} DistinctAddsCommute<S>(
    m: map<string, S>, before: seq<(string, S)>, x: (string, S), y: (string, S), after: seq<(string, S)>)
    requires x.0 != y.0
    ensures AfterAdds(m, before + [x, y] + after) == AfterAdds(m, before + [y, x] + after)
    decreases |after|
  {
    var xy, yx := before + [x, y] + after, before + [y, x] + after;
    if after == [] {
      assert xy[..|xy| - 1] == before + [x] && (before + [x])[..|before|] == before;
      assert yx[..|yx| - 1] == before + [y] && (before + [y])[..|before|] == before;
      var base := AfterAdds(m, before);
      assert base[x.0 := x.1][y.0 := y.1] == base[y.0 := y.1][x.0 := x.1];
    } else {
      var init := after[..|after| - 1];
      assert xy[..|xy| - 1] == before + [x, y] + init;
      assert yx[..|yx| - 1] == before + [y, x] + init;
      DistinctAddsCommute(m, before, x, y, init);
    }
  }

  /** The registry. The `Arc<Mutex<..>>` around the map is not modelled. */
  class SceneManager<S> {
    var sceneMap: map<string, S>

    /** `new`: an empty registry. */
    constructor ()
      ensures sceneMap == map[]
    {
      sceneMap := map[];
    }

    /** `add_scene`: registers `scene` under `name`, replacing and returning
        any scene registered there before; no other entry changes. */
    method AddScene(name: string, scene: S) returns (previous: Option<S>)
      modifies this
      ensures name in sceneMap && sceneMap[name] == scene
      ensures sceneMap.Keys == old(sceneMap).Keys + {name}
      ensures forall k :: k in old(sceneMap) && k != name ==> sceneMap[k] == old(sceneMap)[k]
      ensures previous.Some? <==> name in old(sceneMap)
      ensures previous.Some? ==> previous.value == old(sceneMap)[name]
      ensures sceneMap == AfterAdds(old(sceneMap), [(name, scene)])
    {
      previous := if name in sceneMap then Some(sceneMap[name]) else None;
      sceneMap := sceneMap[name := scene];
    }

    /**
     * `render_scene`: panics when `name` is not registered; otherwise builds
     * an event for the registered scene, not cancelled and without a reason,
     * lets the listeners make the `set_cancelled` calls `calls`, and returns
     * `Ok(())` however the event ends. The map is only read.
     */
    method RenderScene(name: string, calls: seq<Call>) returns (r: RenderOutcome<S>)
      ensures r.Panicked? <==> name !in sceneMap
      ensures r.Panicked? ==> r.message == MissingSceneMessage
      ensures r.Dispatched? ==> r.target == sceneMap[name] && r.final == AfterCalls(Initial, calls)
    {
      if name !in sceneMap {
        return Panicked(MissingSceneMessage);
      }
      var event := new ChangeSceneEvent(sceneMap[name], false, None);
      Dispatch(event, calls);
      r := Dispatched(event.scene, CancelState(event.Cancelled(), event.GetCancelledReason()));
    }
  }
}
