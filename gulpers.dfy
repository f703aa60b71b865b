/**
 * The registry of active fetch workers ("gulpers") of gov/usgs/swarm/data/GulperList.java.
 *
 * The worker class itself and the data source are collaborators whose code is not part
 * of this model: each is an object whose methods only record, in a ghost log, that they
 * were called and with which arguments.
 */
module Gulpers {

  import opened Wrappers

  /** Positive time spans, in seconds. */
  type PositiveReal = r: real | r > 0.0 witness 1.0

  /** The observer a caller passes in; nothing about it is used by the registry but its identity. */
  class GulperListener { }

  /** One recorded call of SeismicDataSource.getWave(channel, t1, t2). */
  datatype WaveRequest = WaveRequest(channel: string, t1: real, t2: real)

  /** The data source; getWave is foreign, so a call is recorded and nothing is returned. */
  class SeismicDataSource {
    ghost var waveRequests: seq<WaveRequest>

    constructor ()
      ensures waveRequests == []
    {
      waveRequests := [];
    }

    method GetWave(channel: string, t1: real, t2: real)
      modifies this
      ensures waveRequests == old(waveRequests) + [WaveRequest(channel, t1, t2)]
    {
      waveRequests := waveRequests + [WaveRequest(channel, t1, t2)];
    }
  }

  /** One recorded call made on a gulper. */
  datatype GulperCall = UpdateCall(t1: real, t2: real) | KillCall

  /**
   * A fetch worker for one key. Its fetch loop is not modelled: it is a handle that remembers
   * the arguments it was created with and logs every update and kill call it receives.
   */
  class Gulper {
    /** The largest window fetched inline instead of by a worker; its value is not part of the model. */
    static const GULP_SIZE: PositiveReal

    const list: GulperList
    const key: string
    const listener: GulperListener
    const source: SeismicDataSource
    const channel: string
    const t1: real
    const t2: real
    ghost var calls: seq<GulperCall>

    constructor (list: GulperList, key: string, listener: GulperListener,
                 source: SeismicDataSource, channel: string, t1: real, t2: real)
      ensures this.list == list && this.key == key && this.listener == listener
      ensures this.source == source && this.channel == channel && this.t1 == t1 && this.t2 == t2
      ensures calls == []
    {
      this.list, this.key, this.listener := list, key, listener;
      this.source, this.channel, this.t1, this.t2 := source, channel, t1, t2;
      calls := [];
    }

    method Update(t1: real, t2: real)
      modifies this
      ensures calls == old(calls) + [UpdateCall(t1, t2)]
    {
      calls := calls + [UpdateCall(t1, t2)];
    }

    method Kill()
      modifies this
      ensures calls == old(calls) + [KillCall]
    {
      calls := calls + [KillCall];
    }

    function GetKey(): string
    {
      key
    }
  }

  /** The table of active gulpers, keyed by the caller's key string. */
  class GulperList {
    var gulpers: map<string, Gulper>

    /** Every registered gulper was created by this registry for the key it is stored under. */
    ghost predicate Valid()
      reads this
    {
      forall k :: k in gulpers ==> gulpers[k].key == k && gulpers[k].list == this
    }

    constructor ()
      ensures Valid() && gulpers == map[]
    {
      gulpers := map[];
    }

    /**
     * Routes a request for data on the window [t1, t2] under `key`: to the gulper already
     * registered for the key, whatever the window (the new listener is then not used);
     * otherwise to one inline getWave call when the window is narrower than GULP_SIZE;
     * otherwise to a new gulper, which is registered under the key.
     */
    method RequestGulper(key: string, gl: GulperListener, source: SeismicDataSource,
                         ch: string, t1: real, t2: real) returns (g: Gulper?)
      requires Valid()
      modifies this, source, if key in gulpers then {gulpers[key]} else {}
      ensures Valid()
      // an existing gulper takes priority over the window-size test
      ensures old(key in gulpers) ==>
        && g == old(gulpers[key])
        && gulpers == old(gulpers)
        && g.calls == old(g.calls) + [UpdateCall(t1, t2)]
        && source.waveRequests == old(source.waveRequests)
      // small window and no gulper: exactly one inline fetch, nothing registered
      ensures old(key !in gulpers) && t2 - t1 < Gulper.GULP_SIZE ==>
        && g == null
        && gulpers == old(gulpers)
        && source.waveRequests == old(source.waveRequests) + [WaveRequest(ch, t1, t2)]
      // large window and no gulper: a fresh gulper stored under key, no other entry touched
      ensures old(key !in gulpers) && t2 - t1 >= Gulper.GULP_SIZE ==>
        && g != null && fresh(g)
        && gulpers == old(gulpers)[key := g]
        && g.list == this && g.key == key && g.listener == gl && g.source == source
        && g.channel == ch && g.t1 == t1 && g.t2 == t2 && g.calls == []
        && source.waveRequests == old(source.waveRequests)
      // an existing entry is never replaced, and the gulpers of other keys receive no call
      ensures forall k :: k in old(gulpers) ==> k in gulpers && gulpers[k] == old(gulpers[k])
      ensures forall k :: k in old(gulpers) && k != key ==> gulpers[k].calls == old(gulpers[k].calls)
    {
      var existing := if key in gulpers then Some(gulpers[key]) else None;
      if existing.Some? {
        g := existing.value;
        g.Update(t1, t2);
      } else if t2 - t1 < Gulper.GULP_SIZE {
        g := null;
        source.GetWave(ch, t1, t2);
      } else {
        g := new Gulper(this, key, gl, source, ch, t1, t2);
        gulpers := gulpers[key := g];
      }
    }

    /** Asks the gulper registered under `key`, if any, to stop; the table itself is not changed. */
    method KillGulper(key: string)
      requires Valid()
      modifies if key in gulpers then {gulpers[key]} else {}
      ensures Valid() && gulpers == old(gulpers)
      ensures key in gulpers ==> gulpers[key].calls == old(gulpers[key].calls) + [KillCall]
      ensures forall k :: k in gulpers && k != key ==> gulpers[k].calls == old(gulpers[k].calls)
    {
      if key in gulpers {
        var g := gulpers[key];
        g.Kill();
      }
    }

    /**
     * Called by a gulper when it finishes: deletes the entry for g's key, whichever gulper
     * occupies it (there is no identity check), and nothing else.
     */
    method RemoveGulper(g: Gulper)
      requires Valid()
      modifies this
      ensures Valid()
      ensures gulpers == old(gulpers) - {g.GetKey()}
      ensures g.key !in gulpers
      ensures forall k :: k in old(gulpers) && k != g.key ==> k in gulpers && gulpers[k] == old(gulpers[k])
    {
      gulpers := gulpers - {g.GetKey()};
    }
  }

  /** The static field GulperList.gulperList, which getInstance fills on first use. */
  class GulperListInstance {
    var gulperList: GulperList?

    /** Once created, the registry stays well formed between calls. */
    ghost predicate Valid()
      reads this, gulperList
    {
      gulperList != null ==> gulperList.Valid()
    }

    constructor ()
      ensures Valid() && gulperList == null
    {
      gulperList := null;
    }

    /** Creates the registry on the first call and hands back that same registry ever after. */
    method GetInstance() returns (r: GulperList)
      requires Valid()
      modifies this
      ensures Valid() && r.Valid()
      ensures gulperList == r
      ensures old(gulperList) != null ==> r == old(gulperList)
      ensures old(gulperList) == null ==> fresh(r) && r.Valid() && r.gulpers == map[]
    {
      if gulperList == null {
        gulperList := new GulperList();
      }
      r := gulperList;
    }
  }

  /**
   * The lifecycle of one key: a small window inline, then a gulper, a second request
   * routed to it (even with a small window and another listener), a kill that leaves it
   * registered, its own removal, and a fresh gulper on the next request.
   */
  method KeyLifecycleScenario(src: SeismicDataSource, gl: GulperListener, other: GulperListener)
    modifies src
  {
    var holder := new GulperListInstance();
    var list := holder.GetInstance();
    var again := holder.GetInstance();
    assert again == list;

    var none := list.RequestGulper("K", gl, src, "CH1", 0.0, 0.0);
    assert none == null && "K" !in list.gulpers;

    var g := list.RequestGulper("K", gl, src, "CH1", 0.0, Gulper.GULP_SIZE);
    assert g != null && list.gulpers == map["K" := g];

    var same := list.RequestGulper("K", other, src, "CH1", 0.0, 0.0);
    assert same == g && same.listener == gl;
    assert g.calls == [UpdateCall(0.0, 0.0)];

    list.KillGulper("K");
    assert list.gulpers == map["K" := g] && g.calls == [UpdateCall(0.0, 0.0), KillCall];

    list.RemoveGulper(g);
    assert list.gulpers == map[];

    var h := list.RequestGulper("K", other, src, "CH1", 0.0, Gulper.GULP_SIZE);
    assert h != null && h != g && h.listener == other;
  }
}
