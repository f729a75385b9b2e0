/** The pool of connections to other nodes, dialled on first use. */
module GrpcPool {
  /** An address and, once `dialled`, whether there is a connection. */
  datatype PoolEntry = PoolEntry(addr: string, dialled: bool, connected: bool)

  /** sync.Once around the dialling: what it brings about is never tried again. */
  function Use(e: PoolEntry, dials: bool): PoolEntry {
    if e.dialled then e else PoolEntry(e.addr, true, dials)
  }

  /** An entry after several uses, for each of which dialling would have gone as `ds` says. */
  function UseAll(e: PoolEntry, ds: seq<bool>): PoolEntry {
    if ds == [] then e else Use(UseAll(e, ds[..|ds| - 1]), ds[|ds| - 1])
  }

  /** The first dialling decides for good: after a failure, an entry stays
      useless even if the node could be reached again. */
  lemma {:induction false} FirstDialDecides(addr: string, ds: seq<bool>)
    requires ds != []
    ensures UseAll(PoolEntry(addr, false, false), ds) == PoolEntry(addr, true, ds[0])
  {
    if |ds| > 1 {
      FirstDialDecides(addr, ds[..|ds| - 1]);
    } else {
      assert ds[..0] == [];
    }
  }

  /** Addresses once a node is registered; an empty name or address is refused. */
  function WithAddress(addresses: map<string, string>, name: string, addr: string): map<string, string> {
    if name == "" || addr == "" then addresses else addresses[name := addr]
  }

  /** The same for the entries: nothing is dialled yet. */
  function WithEntry(connections: map<string, PoolEntry>, name: string, addr: string): map<string, PoolEntry> {
    if name == "" || addr == "" then connections else connections[name := PoolEntry(addr, false, false)]
  }

  /** A registered node can be called, now and later, exactly if the first dialling
      of its new address succeeds, whatever became of an entry it had before; and
      no other entry changes. */
  lemma RegisteredAnew(connections: map<string, PoolEntry>, name: string, addr: string, ds: seq<bool>)
    requires name != "" && addr != "" && ds != []
    ensures var conns := WithEntry(connections, name, addr);
            && conns.Keys == connections.Keys + {name} && conns[name].addr == addr
            && (UseAll(conns[name], ds).connected <==> ds[0])
            && forall n :: n in connections && n != name ==> conns[n] == connections[n]
  {
    FirstDialDecides(addr, ds);
  }

  class Pool {
    var connections: map<string, PoolEntry>

    ghost function Addresses(): map<string, string>
      reads this
    {
      map n | n in connections :: connections[n].addr
    }

    constructor ()
      ensures Addresses() == map[]
    {
      connections := map[];
    }

    /** Registers a node, anew if it was registered; nothing is dialled yet. */
    method AddConnection(name: string, addr: string) returns (ok: bool)
      modifies this
      ensures ok <==> name != "" && addr != ""
      ensures !ok ==> connections == old(connections)
      ensures ok ==>
                && connections.Keys == old(connections).Keys + {name}
                && connections[name].addr == addr && !connections[name].dialled
                && forall n :: n in old(connections) && n != name ==> connections[n] == old(connections)[n]
      ensures Addresses() == WithAddress(old(Addresses()), name, addr)
      ensures connections == WithEntry(old(connections), name, addr)
    {
      if name == "" || addr == "" {
        return false;
      }
      connections := connections[name := PoolEntry(addr, false, false)];
      return true;
    }

    /** `dials` says how dialling goes if it is tried now. */
    method GetClient(name: string, dials: bool) returns (ok: bool)
      modifies this
      ensures ok <==> name in old(connections) && Use(old(connections)[name], dials).connected
      ensures connections == if name in old(connections)
                             then old(connections)[name := Use(old(connections)[name], dials)] else old(connections)
      ensures Addresses() == old(Addresses())
    {
      if name !in connections {
        return false;
      }
      var entry := connections[name];
      if !entry.dialled {
        entry := PoolEntry(entry.addr, true, dials);
      }
      connections := connections[name := entry];
      return entry.connected;
    }

    method UpdateConnection(name: string, addr: string) returns (ok: bool)
      modifies this
      ensures ok <==> name in old(connections)
      ensures connections == if ok then old(connections)[name := PoolEntry(addr, false, false)] else old(connections)
    {
      if name !in connections {
        return false;
      }
      connections := connections[name := PoolEntry(addr, false, false)];
      return true;
    }

    method RemoveConnection(name: string) returns (ok: bool)
      modifies this
      ensures ok <==> name in old(connections)
      ensures Addresses() == old(Addresses()) - {name} && connections == old(connections) - {name}
    {
      if name !in connections {
        return false;
      }
      connections := connections - {name};
      return true;
    }

    method Close()
      modifies this
      ensures Addresses() == map[]
    {
      connections := map[];
    }
  }
}
