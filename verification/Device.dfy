/** Attaching, watching and replacing the device API (`device.go`), with the client it serves. */
module Device {
  import opened Options
  import PeerIndex
  import opened Reconciler
  import opened Protocol
  import Controller

  type NodeKey = PeerIndex.NodeKey

  datatype AttachResult = Attached | ApiClosed | ClientClosed | AlreadyAttached | ZeroKey | OtherIdentity | Refused

  class Session {
    const world: World
    const client: Controller.Client
    var started: bool
    var runtime: Option<NodeKey>
    var api: Option<Api>
    var generation: nat
    var watchers: set<(nat, Api)>
    var closed: set<Api>
    /** `Close` has been called on the client. */
    var finished: bool
    /** The API each published peer was written through. */
    ghost var via: map<NodeKey, Api>

    /** The state between passes. */
    ghost function Contents(): System
      reads this, client
    {
      System(client.Contents(), Idle, started, runtime, api, generation, watchers, closed, via)
    }

    /** `New`, with an open API and what is on its device, or without one. */
    constructor (world: World, api: Option<Api>, device: map<NodeKey, Spec>)
      ensures this.world == world && fresh(client) && client.config == world.config && !finished
      ensures Init(Contents()) && Valid() && this.api == api && client.device == device && closed == {}
    {
      this.world, this.api := world, api;
      client := new Controller.Client(world.config);
      started, runtime, generation, watchers, closed, via := false, None, 0, {}, {}, map[];
      finished := false;
      new;
      client.device := device;
      InitOk(world, Contents());
    }

    predicate Usable()
      reads this
    {
      api.Some? && api.value !in closed
    }

    ghost predicate Valid()
      reads this, client
    {
      Inv(world, Contents())
    }

    method ApiCloses(a: Api)
      requires Valid()
      modifies this`closed
      ensures Valid() && Contents() == old(Contents()).(closed := old(closed) + {a})
    {
      hide Inv;
      CloseKeeps(world, Contents(), a);
      closed := closed + {a};
    }

    /** The start of `Close`: from now on no API is accepted. */
    method Finish()
      requires Valid()
      modifies this`finished
      ensures Valid() && finished && Contents() == old(Contents())
    {
      hide Inv;
      finished := true;
    }

    /** Whether an API would be accepted; `refused` says that it does not take the transport. */
    method Examine(a: Api, refused: bool) returns (result: AttachResult)
      ensures result == ApiClosed <==> a in closed
      ensures result == ClientClosed <==> a !in closed && finished
      ensures result == AlreadyAttached <==> a !in closed && !finished && Usable()
      ensures result == Attached <==>
                && a !in closed && !finished && !Usable()
                && (started ==> world.identity(a) != 0 && !refused)
                && (started && runtime.Some? ==> world.identity(a) == runtime.value)
    {
      if a in closed {
        return ApiClosed;
      }
      if finished {
        return ClientClosed;
      }
      if api.Some? && api.value !in closed {
        return AlreadyAttached;
      }
      if started {
        if world.identity(a) == 0 {
          return ZeroKey;
        }
        if runtime.Some? && world.identity(a) != runtime.value {
          return OtherIdentity;
        }
        if refused {
          return Refused;
        }
      }
      result := Attached;
    }

    /** Takes an API that has been examined. */
    method Take(a: Api, device: map<NodeKey, Spec>)
      requires a !in closed && !Usable() && (runtime.Some? ==> started) && (runtime.None? ==> client.applied == map[])
      requires started ==> world.identity(a) != 0 && (runtime.Some? ==> world.identity(a) == runtime.value)
      modifies this`api, this`generation, this`runtime, this`watchers, client
      ensures Attaches(world, old(Contents()), a, device, Contents())
      ensures client.applied == map[] && generation == old(generation) + 1
    {
      hide Cleared;
      api := Some(a);
      generation := generation + 1;
      client.device := device;
      if runtime.Some? {
        ClearsAll(client.Contents());
        client.ClearAppliedDevice();
      } else if started {
        runtime := Some(world.identity(a));
      }
      if started {
        watchers := watchers + {(generation, a)};
      }
    }

    /** `AttachDevice`: an accepted API starts with nothing published, and a refused one changes nothing. */
    method AttachDevice(a: Api, device: map<NodeKey, Spec>, refused: bool) returns (result: AttachResult)
      requires Valid()
      modifies this`api, this`generation, this`runtime, this`watchers, client
      ensures Valid() && (result == Attached ==> Attaches(world, old(Contents()), a, device, Contents()))
      ensures result == Attached ==> client.applied == map[] && generation == old(generation) + 1
      ensures result == Attached && old(runtime).Some? ==> world.identity(a) == old(runtime).value
      ensures result != Attached ==> Contents() == old(Contents())
    {
      hide Inv, Attaches;
      RuntimeFacts(world, Contents());
      result := Examine(a, refused);
      if result == Attached {
        Take(a, device);
        AttachKeeps(world, old(Contents()), a, device, Contents());
      }
    }

    /** `Start`: with a usable API the runtime takes its identity. */
    method StartClient(refused: bool) returns (ok: bool)
      requires Valid()
      modifies this`started, this`runtime, this`generation, this`watchers
      ensures Valid() && (ok ==> Starts(world, old(Contents()), Contents()))
      ensures !ok ==> Contents() == old(Contents())
      ensures ok <==> !finished && !old(started) && (old(Usable()) ==> world.identity(old(api).value) != 0 && !refused)
    {
      hide Inv;
      if finished || started {
        return false;
      }
      if api.Some? && api.value !in closed {
        if world.identity(api.value) == 0 || refused {
          return false;
        }
        runtime := Some(world.identity(api.value));
        generation := generation + 1;
        watchers := watchers + {(generation, api.value)};
      }
      started := true;
      ok := true;
      StartKeeps(world, old(Contents()), Contents());
    }

    /** A watcher whose API has closed forgets what was published, if its attachment is the current one. */
    method WatcherWakes(g: nat, a: Api)
      requires Valid() && (g, a) in watchers && a in closed
      modifies this`watchers, client
      ensures Valid() && Wakes(old(Contents()), g, a, Contents())
      ensures g != generation ==> client.Contents() == old(client.Contents())
    {
      hide Cleared, Inv;
      watchers := watchers - {(g, a)};
      if generation == g {
        client.ClearAppliedDevice();
      }
      WakeKeeps(world, old(Contents()), g, a, Contents());
    }
  }

  lemma RuntimeFacts(w: World, y: System)
    requires Inv(w, y)
    ensures y.runtime.Some? ==> y.started
    ensures y.runtime.None? ==> y.core.applied == map[]
  {
  }

  lemma ClearsAll(s: State)
    ensures Cleared(s).applied == map[]
  {
  }
}
