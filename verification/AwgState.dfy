/** What is kept on disk for an AmneziaWG listener (awg_inbound.py): the server's keys, each
    user's offset and keys, and the generated obfuscation. */
module AwgState {
  import opened Wrappers
  import opened AwgAddresses
  import Obfuscation = AwgObfuscation

  const STATE_VERSION := 1

  /** A peer as declared: with its public key, or a file holding its private key, or neither. */
  datatype Peer = Peer(user: User, publicKey: Option<string>, privateKeyFile: Option<string>,
      presharedKeyFile: Option<string>)

  datatype Listener = Listener(subnet: Subnet, privateKeyFile: Option<string>, obfuscation: Obfuscation.Values,
      peers: seq<Peer>)

  /** Keys as stored; an empty string is none. */
  datatype Server = Server(privateKey: string, publicKey: string)

  datatype Entry = Entry(offset: Option<int>, privateKey: string, publicKey: string, presharedKey: string)

  datatype State = State(version: int, server: Server, obfuscation: Obfuscation.Values, users: map<string, Entry>)

  const NO_ENTRY := Entry(None, "", "", "")
  const NO_STATE := State(STATE_VERSION, Server("", ""), map[], map[])

  datatype Failure = NoKey(path: string) | NoAddresses(error: Error)

  datatype Outcome<T> = Done(value: T) | Failed(failure: Failure)

  /** What the run sees besides the state: the key files it can read, and the public key that
      goes with a private one. */
  datatype World = World(files: map<string, string>, public: string -> string)

  function Users(peers: seq<Peer>): (r: seq<User>)
    ensures |r| == |peers|
    ensures forall i :: 0 <= i < |peers| ==> r[i] == peers[i].user
  {
    seq(|peers|, i requires 0 <= i < |peers| => peers[i].user)
  }

  function Offsets(users: map<string, Entry>): map<string, int> {
    map n | n in users && users[n].offset.Some? :: users[n].offset.value
  }

  /** A state written by another version counts for nothing. */
  function Current(state: State): State {
    if state.version == STATE_VERSION then state else NO_STATE
  }

  function Stored(users: map<string, Entry>, name: string): Entry {
    if name in users then users[name] else NO_ENTRY
  }

  /** The key is the stored one, or a new one, never empty. */
  predicate Kept(stored: string, key: string) {
    if stored != "" then key == stored else key != ""
  }

  predicate ServerKeys(w: World, file: Option<string>, stored: Server, server: Server) {
    if file.Some? then
      file.value in w.files && server == Server("", w.public(w.files[file.value]))
    else
      Kept(stored.privateKey, server.privateKey)
      && server.publicKey == if stored.privateKey != "" && stored.publicKey != "" then stored.publicKey
                             else w.public(server.privateKey)
  }

  predicate EntryFor(w: World, p: Peer, stored: Entry, offset: int, e: Entry) {
    e.offset == Some(offset)
    && (if p.publicKey.Some? then e.privateKey == "" && e.publicKey == p.publicKey.value
        else if p.privateKeyFile.Some? then
          p.privateKeyFile.value in w.files && e.privateKey == ""
              && e.publicKey == w.public(w.files[p.privateKeyFile.value])
        else
          Kept(stored.privateKey, e.privateKey)
          && e.publicKey == if stored.privateKey != "" && stored.publicKey != "" then stored.publicKey
                            else w.public(e.privateKey))
    && (if p.presharedKeyFile == None && p.publicKey == None then Kept(stored.presharedKey, e.presharedKey)
        else e.presharedKey == "")
  }

  /** next is a state this listener may have after state: whatever could be kept was. */
  ghost predicate Updated(w: World, l: Listener, state: State, next: State) {
    var was := Current(state);
    next.version == STATE_VERSION
    && ServerKeys(w, l.privateKeyFile, was.server, next.server)
    && Allocate(l.subnet, Users(l.peers), Offsets(was.users)) == Ok(Offsets(next.users))
    && HasEntries(w, l.peers, was.users, next.users)
    && next.obfuscation.Keys !! l.obfuscation.Keys
    && Obfuscation.WellChosen(l.obfuscation, was.obfuscation, l.obfuscation + next.obfuscation)
  }

  /** From a state of any other version than the first, an update is one from nothing. */
  lemma OtherVersion(w: World, l: Listener, state: State, next: State)
    ensures state.version != 1 ==>
              (Updated(w, l, state, next) <==> Updated(w, l, State(1, Server("", ""), map[], map[]), next))
    ensures Updated(w, l, state, next) ==> next.version == 1
  {
    hide ServerKeys, HasEntries, Allocate, Obfuscation.WellChosen;
  }

  /** One entry per peer, none for anyone else. */
  ghost predicate HasEntries(w: World, peers: seq<Peer>, stored: map<string, Entry>, users: map<string, Entry>) {
    users.Keys == Names(Users(peers))
    && forall i :: 0 <= i < |peers| ==> HasEntry(w, peers[i], stored, users)
  }

  ghost predicate HasEntry(w: World, p: Peer, stored: map<string, Entry>, users: map<string, Entry>) {
    p.user.name in users && users[p.user.name].offset.Some?
    && EntryFor(w, p, Stored(stored, p.user.name), users[p.user.name].offset.value, users[p.user.name])
  }

  // ---- The update ----

  method NewKey() returns (key: string)
    ensures key != ""
  {
    var first: char := *;
    var rest: string := *;
    key := [first] + rest;
  }

  predicate Readable(w: World, file: Option<string>) {
    file.Some? ==> file.value in w.files
  }

  /** The key file of a peer that is read: one with a public key of its own needs none. */
  function KeyFile(p: Peer): Option<string> {
    if p.publicKey.Some? then None else p.privateKeyFile
  }

  method MakeServer(w: World, file: Option<string>, stored: Server) returns (r: Outcome<Server>)
    ensures r.Done? <==> Readable(w, file)
    ensures r.Done? ==> ServerKeys(w, file, stored, r.value)
    ensures r.Failed? ==> r.failure.NoKey? && r.failure.path !in w.files
  {
    if file.Some? {
      if file.value !in w.files {
        return Failed(NoKey(file.value));
      }
      return Done(Server("", w.public(w.files[file.value])));
    }
    var private := stored.privateKey;
    if private != "" && stored.publicKey != "" {
      return Done(stored);
    }
    if private == "" {
      private := NewKey();
    }
    r := Done(Server(private, w.public(private)));
  }

  method MakeEntry(w: World, p: Peer, stored: Entry, offset: int) returns (r: Outcome<Entry>)
    ensures r.Done? <==> Readable(w, KeyFile(p))
    ensures r.Done? ==> EntryFor(w, p, stored, offset, r.value)
    ensures r.Failed? ==> r.failure.NoKey? && r.failure.path !in w.files
  {
    var e := Entry(Some(offset), "", "", "");
    if p.publicKey.Some? {
      e := e.(publicKey := p.publicKey.value);
    } else if p.privateKeyFile.Some? {
      if p.privateKeyFile.value !in w.files {
        return Failed(NoKey(p.privateKeyFile.value));
      }
      e := e.(publicKey := w.public(w.files[p.privateKeyFile.value]));
    } else {
      var private := stored.privateKey;
      if private == "" {
        private := NewKey();
      }
      var public := if stored.privateKey == private && stored.publicKey != "" then stored.publicKey
                    else w.public(private);
      e := e.(privateKey := private, publicKey := public);
    }
    if p.presharedKeyFile == None && p.publicKey == None {
      var key := stored.presharedKey;
      if key == "" {
        key := NewKey();
      }
      e := e.(presharedKey := key);
    }
    r := Done(e);
  }

  method MakeEntries(w: World, peers: seq<Peer>, stored: map<string, Entry>, offsets: map<string, int>)
      returns (r: Outcome<map<string, Entry>>)
    requires UniqueNames(Users(peers)) && offsets.Keys == Names(Users(peers))
    ensures r.Done? <==> forall i :: 0 <= i < |peers| ==> Readable(w, KeyFile(peers[i]))
    ensures r.Done? ==> HasEntries(w, peers, stored, r.value) && Offsets(r.value) == offsets
    ensures r.Failed? ==> r.failure.NoKey? && r.failure.path !in w.files
  {
    hide UniqueNames, Names, EntryFor, Readable, KeyFile;
    var users: map<string, Entry> := map[];
    NoNames(Users(peers[..0]));
    for i := 0 to |peers|
      invariant HasEntries(w, peers[..i], stored, users)
      invariant forall n :: n in users ==> n in offsets && users[n].offset == Some(offsets[n])
      invariant forall j :: 0 <= j < i ==> Readable(w, KeyFile(peers[j]))
    {
      var name := peers[i].user.name;
      InNames(Users(peers), i);
      var entry := MakeEntry(w, peers[i], Stored(stored, name), offsets[name]);
      if entry.Failed? {
        return Failed(entry.failure);
      }
      EntryAdded(w, peers, i, stored, users, entry.value);
      users := users[name := entry.value];
    }
    assert peers[..|peers|] == peers;
    r := Done(users);
  }

  lemma EntryAdded(w: World, peers: seq<Peer>, i: nat, stored: map<string, Entry>, users: map<string, Entry>, e: Entry)
    requires i < |peers| && UniqueNames(Users(peers)) && HasEntries(w, peers[..i], stored, users)
    requires e.offset.Some? && EntryFor(w, peers[i], Stored(stored, peers[i].user.name), e.offset.value, e)
    ensures HasEntries(w, peers[..i + 1], stored, users[peers[i].user.name := e])
  {
    hide Names, EntryFor;
    var now := peers[..i + 1];
    var name, after := peers[i].user.name, users[peers[i].user.name := e];
    assert Users(now)[..i] == Users(peers[..i]);
    NamesStep(Users(now));
    forall j | 0 <= j < |now| ensures HasEntry(w, now[j], stored, after) {
      if j < i {
        assert peers[..i][j] == now[j] && Users(peers)[j] == now[j].user && Users(peers)[i] == peers[i].user;
      }
    }
  }

  /** The state after this spec, or what stands in its way. */
  method UpdateState(w: World, l: Listener, state: State) returns (r: Outcome<State>)
    requires UniqueNames(Users(l.peers))
    ensures r.Done? <==>
      Readable(w, l.privateKeyFile) && (forall i :: 0 <= i < |l.peers| ==> Readable(w, KeyFile(l.peers[i])))
      && Allocate(l.subnet, Users(l.peers), Offsets(Current(state).users)).Ok?
    ensures r.Done? ==> Updated(w, l, state, r.value)
    ensures r.Failed? ==>
      match r.failure
      case NoKey(path) => path !in w.files
      case NoAddresses(e) => Allocate(l.subnet, Users(l.peers), Offsets(Current(state).users)) == Err(e)
  {
    hide UniqueNames, Names, Allocate, HasEntries, ServerKeys, Readable, KeyFile;
    hide Obfuscation.WellChosen;
    var was := Current(state);
    var server := MakeServer(w, l.privateKeyFile, was.server);
    if server.Failed? {
      return Failed(server.failure);
    }
    var offsets := AllocateAddresses(l.subnet, Users(l.peers), Offsets(was.users));
    if offsets.Err? {
      return Failed(NoAddresses(offsets.error));
    }
    AllocateSound(l.subnet, Users(l.peers), Offsets(was.users));
    var users := MakeEntries(w, l.peers, was.users, offsets.value);
    if users.Failed? {
      return Failed(users.failure);
    }
    var generated := Obfuscation.GenerateObfuscation(l.obfuscation, was.obfuscation);
    r := Done(State(STATE_VERSION, server.value, generated, users.value));
  }

  // ---- Runs ----

  /** Once more for the same listener, in whatever order its users come now: nothing changes. */
  lemma UpdateIsFixed(w: World, l: Listener, reordered: Listener, state: State, next: State, again: State)
    requires UniqueNames(Users(l.peers)) && UniqueNames(Users(reordered.peers))
    requires reordered.(peers := l.peers) == l && forall p :: p in l.peers <==> p in reordered.peers
    requires Updated(w, l, state, next) && Updated(w, reordered, next, again)
    ensures again == next
  {
    hide UniqueNames, Names, Allocate, EntryFor;
    hide Obfuscation.WellChosen;
    SameUsers(l.peers, reordered.peers);
    SameUsers(reordered.peers, l.peers);
    AllocateFixed(l.subnet, Users(l.peers), Users(reordered.peers), Offsets(Current(state).users));
    Obfuscation.GeneratedIsFixed(l.obfuscation, Current(state).obfuscation, next.obfuscation, again.obfuscation);
    assert again.users.Keys == next.users.Keys by {
      SameNames(Users(l.peers), Users(reordered.peers));
      SameNames(Users(reordered.peers), Users(l.peers));
    }
    forall n | n in next.users ensures again.users[n] == next.users[n] {
      var i := NameIndex(Users(l.peers), n);
      assert l.peers[i] in reordered.peers;
      var j :| 0 <= j < |reordered.peers| && reordered.peers[j] == l.peers[i];
      EntryIsFixed(w, l.peers[i], Current(state).users, next.users, again.users);
    }
  }

  lemma SameUsers(a: seq<Peer>, b: seq<Peer>)
    requires forall p :: p in a ==> p in b
    ensures forall u :: u in Users(a) ==> u in Users(b)
  {
    forall u | u in Users(a) ensures u in Users(b) {
      var i :| 0 <= i < |a| && Users(a)[i] == u;
      assert a[i] in b;
      var j :| 0 <= j < |b| && b[j] == a[i];
      assert Users(b)[j] == u;
    }
  }

  lemma EntryIsFixed(w: World, p: Peer, stored: map<string, Entry>, users: map<string, Entry>,
      again: map<string, Entry>)
    requires HasEntry(w, p, stored, users) && HasEntry(w, p, users, again)
    requires Offsets(users) == Offsets(again)
    ensures again[p.user.name] == users[p.user.name]
  {
    var name := p.user.name;
    assert Offsets(users)[name] == users[name].offset.value && Offsets(again)[name] == again[name].offset.value;
  }

  /** A run of specs, each updating the state the one before left, with the key files as they are
      then. */
  ghost predicate Run(ws: seq<World>, ls: seq<Listener>, states: seq<State>) {
    |states| == |ls| + 1 == |ws| + 1
    && (forall j, k :: 0 <= j < k < |ws| ==> ws[j].public == ws[k].public)
    && forall k :: 0 <= k < |ls| ==> UniqueNames(Users(ls[k].peers)) && Updated(ws[k], ls[k], states[k], states[k + 1])
  }

  /** A user of this name, with no address declared or this offset's, which fits then and which no
      other user declares. */
  ghost predicate Stays(l: Listener, name: string, offset: int) {
    (exists i :: 0 <= i < |l.peers| && StaysAs(l, l.peers[i], name, offset))
    && forall i :: 0 <= i < |l.peers| && l.peers[i].user.name != name && l.peers[i].user.address.Some? ==>
         Offset(l.subnet, l.peers[i].user.address.value) != offset
  }

  predicate StaysAs(l: Listener, p: Peer, name: string, offset: int) {
    p.user.name == name
    && if p.user.address.Some? then Offset(l.subnet, p.user.address.value) == offset
       else Fits(offset, OffsetsEnd(l.subnet))
  }

  /** Whoever else comes and goes, and whatever keys users bring, one who stays keeps their offset
      through every run. */
  lemma {:induction false} StayingUserKeepsOffset(ws: seq<World>, ls: seq<Listener>, states: seq<State>, name: string,
      offset: int)
    requires Run(ws, ls, states) && ls != [] && name in states[1].users && states[1].users[name].offset == Some(offset)
    requires forall k :: 0 <= k < |ls| ==> Stays(ls[k], name, offset)
    ensures name in states[|ls|].users
    ensures states[|ls|].users[name].offset == Some(offset)
    decreases |ls|
  {
    hide UniqueNames, Updated, Stays;
    if |ls| > 1 {
      var k := |ls| - 1;
      StayingUserKeepsOffset(ws[..k], ls[..k], states[..|ls|], name, offset);
      OffsetStep(ws[k - 1], ws[k], ls[k - 1], ls[k], states[k - 1], states[k], states[k + 1], name, offset);
    }
  }

  lemma OffsetStep(v: World, w: World, before: Listener, l: Listener, first: State, state: State, next: State,
      name: string, offset: int)
    requires UniqueNames(Users(before.peers)) && UniqueNames(Users(l.peers))
    requires Updated(v, before, first, state) && Updated(w, l, state, next)
    requires name in state.users && state.users[name].offset == Some(offset) && Stays(l, name, offset)
    ensures name in next.users && next.users[name].offset == Some(offset)
  {
    hide UniqueNames, Names, Allocate, HasEntries, ServerKeys, OffsetsEnd, Offset;
    hide Obfuscation.WellChosen;
    var users, offsets := Users(l.peers), Offsets(state.users);
    AllocateSound(before.subnet, Users(before.peers), Offsets(Current(first).users));
    assert offsets[name] == offset;
    var i :| 0 <= i < |l.peers| && StaysAs(l, l.peers[i], name, offset);
    if users[i].address.Some? {
      AllocateHonours(l.subnet, users, offsets, i);
    } else {
      forall j | 0 <= j < |users| && users[j].address.Some?
        ensures Offset(l.subnet, users[j].address.value) != offsets[name]
      {
        OneOfAName(users, i, j);
      }
      AllocateKeeps(l.subnet, users, offsets, i);
    }
    assert Offsets(next.users)[name] == offset;
  }

  lemma OneOfAName(users: seq<User>, i: nat, j: nat)
    requires UniqueNames(users) && i < |users| && j < |users|
    ensures users[i].name == users[j].name ==> i == j
  {}

  /** A user of this name whose key pair is made here; one whose preshared key is. */
  ghost predicate KeyMade(l: Listener, name: string) {
    exists i :: 0 <= i < |l.peers| && l.peers[i].user.name == name && l.peers[i].publicKey == None
      && l.peers[i].privateKeyFile == None
  }

  ghost predicate PresharedMade(l: Listener, name: string) {
    exists i :: 0 <= i < |l.peers| && l.peers[i].user.name == name && l.peers[i].publicKey == None
      && l.peers[i].presharedKeyFile == None
  }

  /** Whatever becomes of their offset, one whose keys are made here keeps them while they stay. */
  lemma {:induction false} StayingUserKeepsKeys(ws: seq<World>, ls: seq<Listener>, states: seq<State>, name: string)
    requires Run(ws, ls, states) && ls != []
    requires forall k :: 1 <= k <= |ls| ==> name in states[k].users
    ensures (forall k :: 0 <= k < |ls| ==> KeyMade(ls[k], name)) ==>
              states[|ls|].users[name].privateKey == states[1].users[name].privateKey
              && states[|ls|].users[name].publicKey == states[1].users[name].publicKey
    ensures (forall k :: 0 <= k < |ls| ==> PresharedMade(ls[k], name)) ==>
              states[|ls|].users[name].presharedKey == states[1].users[name].presharedKey
    decreases |ls|
  {
    hide UniqueNames, Updated, KeyMade, PresharedMade;
    if |ls| > 1 {
      var k := |ls| - 1;
      var earlier := ls[..k];
      assert forall j :: 0 <= j < k ==> earlier[j] == ls[j];
      assert forall j :: 0 <= j <= k ==> states[..|ls|][j] == states[j];
      StayingUserKeepsKeys(ws[..k], earlier, states[..|ls|], name);
      KeysStep(ws[k - 1], ws[k], ls[k - 1], ls[k], states[k - 1], states[k], states[k + 1], name);
    }
  }

  lemma KeysStep(v: World, w: World, before: Listener, l: Listener, first: State, state: State, next: State,
      name: string)
    requires v.public == w.public && UniqueNames(Users(before.peers)) && UniqueNames(Users(l.peers))
    requires Updated(v, before, first, state) && Updated(w, l, state, next) && name in state.users && name in next.users
    ensures KeyMade(before, name) && KeyMade(l, name) ==>
              next.users[name].privateKey == state.users[name].privateKey
              && next.users[name].publicKey == state.users[name].publicKey
    ensures PresharedMade(before, name) && PresharedMade(l, name) ==>
      next.users[name].presharedKey == state.users[name].presharedKey
  {
    hide UniqueNames, Names, Allocate, EntryFor, ServerKeys;
    hide Obfuscation.WellChosen;
    if KeyMade(before, name) && KeyMade(l, name) {
      var b :| 0 <= b < |before.peers| && before.peers[b].user.name == name && before.peers[b].publicKey == None
               && before.peers[b].privateKeyFile == None;
      var i :| 0 <= i < |l.peers| && l.peers[i].user.name == name && l.peers[i].publicKey == None
        && l.peers[i].privateKeyFile == None;
      KeysStay(v, w, before.peers[b], l.peers[i], Current(first).users, state.users, next.users);
    }
    if PresharedMade(before, name) && PresharedMade(l, name) {
      var b :| 0 <= b < |before.peers| && before.peers[b].user.name == name && before.peers[b].publicKey == None
               && before.peers[b].presharedKeyFile == None;
      var i :| 0 <= i < |l.peers| && l.peers[i].user.name == name && l.peers[i].publicKey == None
        && l.peers[i].presharedKeyFile == None;
      KeysStay(v, w, before.peers[b], l.peers[i], Current(first).users, state.users, next.users);
    }
  }

  lemma KeysStay(v: World, w: World, p: Peer, q: Peer, stored: map<string, Entry>, users: map<string, Entry>,
      next: map<string, Entry>)
    requires v.public == w.public && HasEntry(v, p, stored, users) && HasEntry(w, q, users, next)
      && p.user.name == q.user.name
    requires p.publicKey == None && q.publicKey == None
    ensures var before, after := users[q.user.name], next[q.user.name];
            (p.privateKeyFile == None && q.privateKeyFile == None ==>
               after.privateKey == before.privateKey && after.publicKey == before.publicKey)
            && (p.presharedKeyFile == None && q.presharedKeyFile == None ==> after.presharedKey == before.presharedKey)
  {}

  /** One who stays, and whose keys are made here, keeps all there is of them. */
  lemma StayingUserKeepsAll(ws: seq<World>, ls: seq<Listener>, states: seq<State>, name: string, offset: int)
    requires Run(ws, ls, states) && ls != [] && name in states[1].users && states[1].users[name].offset == Some(offset)
    requires forall k :: 0 <= k < |ls| ==> Stays(ls[k], name, offset)
    requires forall k :: 0 <= k < |ls| ==> KeyMade(ls[k], name)
    requires forall k :: 0 <= k < |ls| ==> PresharedMade(ls[k], name)
    ensures name in states[|ls|].users
    ensures states[|ls|].users[name] == states[1].users[name]
  {
    hide Updated, UniqueNames, Stays, KeyMade, PresharedMade;
    StayingUserKeepsOffset(ws, ls, states, name, offset);
    forall k | 1 <= k <= |ls|
      ensures name in states[k].users
    {
      StaysPresent(ws[k - 1], ls[k - 1], states[k - 1], states[k], name, offset);
    }
    StayingUserKeepsKeys(ws, ls, states, name);
  }

  lemma StaysPresent(w: World, l: Listener, state: State, next: State, name: string, offset: int)
    requires Updated(w, l, state, next) && Stays(l, name, offset)
    ensures name in next.users
  {
    hide EntryFor, ServerKeys, Allocate, OffsetsEnd, Names;
    hide Obfuscation.WellChosen;
    var i :| 0 <= i < |l.peers| && StaysAs(l, l.peers[i], name, offset);
    assert HasEntry(w, l.peers[i], Current(state).users, next.users);
  }
}
