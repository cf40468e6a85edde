/** nftables under the manager (inbound_netfilter.py): what it believes is installed, and what
    is. The table can go at any time, and any command can fail. */
module Netfilter {
  import opened Wrappers
  import opened Limits
  import opened Ordering

  datatype Wanted = Wanted(users: map<nat, Speed>, peers: multiset<Peer>)

  datatype Outcome = Skipped | Changed | Failed

  class Filter {
    const enabled: bool
    /** What the kernel holds. */
    var table: Option<Table>
    var installed: Option<Wanted>

    /** What is installed is in the table, if there is one. */
    ghost predicate Valid()
      reads this
    {
      installed.Some? && table.Some? ==> Holds(table.value, installed.value.users, installed.value.peers)
    }

    constructor (enabled: bool, table: Option<Table>)
      ensures Valid() && this.enabled == enabled && this.table == table && installed == None
    {
      this.enabled, this.table, installed := enabled, table, None;
    }

    /** Someone reloads the ruleset, or not. */
    method Meanwhile(trouble: bool)
      modifies this`table
      ensures table == old(table) || table == None
      ensures !trouble ==> table == old(table)
    {
      var flushed: bool := *;
      if trouble && flushed {
        table := None;
      }
    }

    /** Whether the table is listed; a listing that fails looks like none. */
    method Present(trouble: bool) returns (there: bool)
      requires Valid()
      modifies this`table
      ensures Valid() && (table == old(table) || table == None)
      ensures there ==> old(table).Some?
      ensures !trouble ==> table == old(table) && (there <==> table.Some?)
    {
      var fails: bool := *;
      there := table.Some? && !(trouble && fails);
      Meanwhile(trouble);
    }

    /** Make the table if it is gone. */
    method Ensure(trouble: bool) returns (r: Outcome)
      requires Valid()
      modifies this`table, this`installed
      ensures Valid() && installed == if r == Changed then None else old(installed)
      ensures r == Changed ==> table == Some(EMPTY) || table == None
      ensures !trouble && enabled ==> r != Failed && table.Some? && (r == Changed <==> old(table) == None)
      // A table that is there stays as it is; a host that is off has nothing done to it.
      ensures enabled && r == Skipped ==> old(table).Some?
      ensures r == Skipped && !trouble ==> table == old(table)
      ensures !enabled ==> r == Skipped && table == old(table)
    {
      hide Holds;
      if !enabled {
        return Skipped;
      }
      var there := Present(trouble);
      if there {
        return Skipped;
      }
      var fails: bool := *;
      if trouble && fails {
        return Failed;
      }
      table := Some(EMPTY);
      installed := None;
      Meanwhile(trouble);
      r := Changed;
    }

    /** Install these limits unless they are what is in. */
    method SyncLimits(users: map<nat, Speed>, peers: seq<Peer>, trouble: bool) returns (r: Outcome)
      requires Valid()
      modifies this`table, this`installed
      ensures Valid()
      ensures enabled && r != Failed ==> installed == Some(Wanted(users, multiset(peers)))
      ensures r == Failed ==> installed == old(installed) || installed == None
      ensures !enabled ==> r == Skipped && table == old(table) && installed == old(installed)
      ensures enabled && !trouble && !PeersClash(peers) ==>
                r != Failed && table.Some? && Holds(table.value, users, multiset(peers))
      // Nothing is run for limits that are in already, and for no others is it not.
      ensures enabled && !trouble && old(table).Some? && old(installed) == Some(Wanted(users, multiset(peers))) ==>
                r == Skipped && table == old(table)
      ensures enabled && r == Skipped ==> old(installed) == Some(Wanted(users, multiset(peers)))
      // Limits that clash are refused, and the table keeps what it had.
      ensures enabled && PeersClash(peers) && old(installed) != Some(Wanted(users, multiset(peers))) ==> r == Failed
      ensures !trouble && old(table).Some? && r == Failed ==> table == old(table)
    {
      hide Holds, PeersClash, Script, Run, Listed;
      if !enabled {
        return Skipped;
      }
      var wanted := Wanted(users, multiset(peers));
      if Some(wanted) == installed {
        var there := Present(trouble);
        if there {
          return Skipped;
        }
      }
      var made := Ensure(trouble);
      if made == Failed || table == None {
        return Failed;
      }
      var lines := LimitsScript(table.value.limits.Keys, users, peers);
      ghost var listed := table;
      Meanwhile(trouble);
      var fails: bool := *;
      if table == None || (trouble && fails) {
        return Failed;
      }
      ScriptRuns(table.value, Ascending(users.Keys), users, peers);
      var after := Run(table.value, lines);
      if after == None {
        return Failed;
      }
      table := after;
      installed := Some(wanted);
      Meanwhile(trouble);
      r := Changed;
    }
  }
}
