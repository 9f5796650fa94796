/** The hub of live connections: two indexes over the same clients, bounded buffers and fan-out. */
module WebSocketHub {
  import opened SetFacts
  import opened Subsequences

  const SEND_BUFFER_SIZE: nat := 256

  type Text = string

  /** What a buffer holds: hub messages, and frames a client sends to itself (pongs, confirmations). */
  datatype Frame = FromHub(text: Text) | Direct(text: Text)

  datatype Target = ToUser(userId: int) | ToTenant(tenantId: int) | ToAll

  datatype BroadcastMessage = BroadcastMessage(target: Target, text: Text, category: string)

  ghost function HubTexts(frames: seq<Frame>): seq<Text> {
    if frames == [] then []
    else HubTexts(frames[..|frames| - 1]) + (if frames[|frames| - 1].FromHub? then [frames[|frames| - 1].text] else [])
  }

  lemma {:induction false} HubTextsConcat(a: seq<Frame>, b: seq<Frame>)
    ensures HubTexts(a + b) == HubTexts(a) + HubTexts(b)
  {
    if b == [] {
      assert a + b == a;
    } else {
      assert (a + b)[..|a + b| - 1] == a + b[..|b| - 1];
      HubTextsConcat(a, b[..|b| - 1]);
    }
  }

  /** A buffer after a non-blocking send. */
  function Offered(buffer: seq<Frame>, f: Frame): seq<Frame> {
    if |buffer| < SEND_BUFFER_SIZE then buffer + [f] else buffer
  }

  /** The first of n writes that fails, or n. */
  ghost function FirstFailure(writes: nat -> bool, n: nat): (k: nat)
    ensures k <= n && (forall j :: 0 <= j < k ==> writes(j)) && (k < n ==> !writes(k))
  {
    if n == 0 then 0
    else
      var k := FirstFailure(writes, n - 1);
      if k < n - 1 then k else if writes(k) then n else k
  }

  lemma FirstFailureAt(writes: nat -> bool, n: nat, i: nat)
    requires i <= n && forall j :: 0 <= j < i ==> writes(j)
    ensures i == n || !writes(i) ==> FirstFailure(writes, n) == i
  {
    var k := FirstFailure(writes, n);
    assert !(k < i);
  }

  class Client {
    const userId: int
    const tenantId: int
    var send: seq<Frame>
    var closed: bool
    var subscriptions: set<string>
    var written: seq<Frame>      // what the connection was given to write
    var pumpStopped: bool
    ghost var accepted: seq<Frame>  // everything that ever entered the buffer
    ghost var entered: seq<Text>    // the hub messages among them
    ghost var dropped: seq<Frame>   // taken from the buffer by a write that failed
    ghost var targeted: seq<Text>   // every hub message this client was to receive

    ghost predicate Valid()
      reads this
    {
      && |send| <= SEND_BUFFER_SIZE
      && accepted == written + dropped + send
      && (dropped != [] ==> pumpStopped)
      && entered == HubTexts(accepted)
      && Subsequence(entered, targeted)
    }

    constructor (userId: int, tenantId: int)
      ensures Valid() && !closed && !pumpStopped
      ensures this.userId == userId && this.tenantId == tenantId
      ensures send == [] && written == [] && targeted == [] && entered == [] && subscriptions == {}
    {
      this.userId, this.tenantId := userId, tenantId;
      send, closed, subscriptions, written, pumpStopped := [], false, {}, [], false;
      accepted, entered, dropped, targeted := [], [], [], [];
    }

    /** Without subscriptions a client is subscribed to everything. */
    predicate IsSubscribed(category: string)
      reads this`subscriptions
      ensures IsSubscribed(category) <==> subscriptions == {} || category in subscriptions
    {
      if |subscriptions| == 0 then true else category in subscriptions
    }

    method Subscribe(categories: seq<string>)
      modifies this`subscriptions
      ensures subscriptions == old(subscriptions) + set c | c in categories
    {
      for k := 0 to |categories|
        invariant subscriptions == old(subscriptions) + set c | c in categories[..k]
      {
        subscriptions := subscriptions + {categories[k]};
      }
    }

    method Unsubscribe(categories: seq<string>)
      modifies this`subscriptions
      ensures subscriptions == old(subscriptions) - set c | c in categories
    {
      for k := 0 to |categories|
        invariant subscriptions == old(subscriptions) - set c | c in categories[..k]
      {
        subscriptions := subscriptions - {categories[k]};
      }
    }

    /** Sending on a closed channel would panic: the caller must know the channel is open. */
    method Send(text: Text) returns (full: bool)
      requires !closed
      modifies this`send, this`accepted, this`entered, this`targeted
      ensures old(Valid()) ==> Valid()
      ensures full <==> |old(send)| >= SEND_BUFFER_SIZE
      ensures send == Offered(old(send), FromHub(text))
      ensures targeted == old(targeted) + [text]
      ensures entered == old(entered) + (if full then [] else [text])
    {
      full := |send| >= SEND_BUFFER_SIZE;
      targeted := targeted + [text];
      ghost var before := accepted;
      if !full {
        send := send + [FromHub(text)];
        accepted := accepted + [FromHub(text)];
        entered := entered + [text];
      }
      if old(Valid()) {
        if full {
          SkipLast(entered, old(targeted), text);
        } else {
          HubTextsConcat(before, [FromHub(text)]);
          assert [FromHub(text)][..0] == [] && HubTexts([FromHub(text)]) == [text];
          TakeLast(old(entered), old(targeted), text);
          assert accepted == written + dropped + send;
        }
      }
    }

    method SendDirect(text: Text)
      requires Valid() && !closed
      modifies this`send, this`accepted
      ensures Valid()
      ensures send == Offered(old(send), Direct(text))
    {
      if |send| < SEND_BUFFER_SIZE {
        HubTextsConcat(accepted, [Direct(text)]);
        assert HubTexts([Direct(text)]) == [] by {
          assert [Direct(text)][..0] == [];
        }
        assert HubTexts(accepted + [Direct(text)]) == HubTexts(accepted);
        send := send + [Direct(text)];
        accepted := accepted + [Direct(text)];
        assert accepted == written + dropped + send;
      }
    }

    method Close()
      modifies this`closed
      ensures closed
    {
      if !closed {
        closed := true;
      }
    }

    /** Writes the oldest buffered frame; a failed write ends the pump and loses the frame. */
    method WriteFront(ok: bool)
      requires Valid() && send != [] && !pumpStopped
      modifies this`send, this`written, this`dropped, this`pumpStopped
      ensures Valid()
      ensures send == old(send)[1..]
      ensures written == if ok then old(written) + [old(send)[0]] else old(written)
      ensures ok ==> written + send == old(written + send)
      ensures pumpStopped == !ok
    {
      var front := send[0];
      assert send == [front] + send[1..];
      send := send[1..];
      if ok {
        written := written + [front];
        assert written + send == old(written + send);
      } else {
        dropped := dropped + [front];
        pumpStopped := true;
      }
    }

    /** The pump's receive case: one frame, then all that were buffered behind it. Everything before the first write
        that fails is written in order; that write loses its frame and ends the pump. */
    method PumpBuffered(writes: nat -> bool)
      requires Valid() && send != [] && !pumpStopped
      modifies this`send, this`written, this`dropped, this`pumpStopped
      ensures Valid()
      ensures var n, k := |old(send)|, FirstFailure(writes, |old(send)|);
              && written == old(written) + old(send)[..k] && pumpStopped == (k < n)
              && send == (if k < n then old(send)[k + 1..] else [])
    {
      ghost var all, before := send, written;
      FirstFailureAt(writes, |all|, 0);
      WriteNext(all, before, 0, writes(0));
      if pumpStopped {
        return;
      }
      var n := |send|;
      var i := 0;
      while i < n
        invariant 0 <= i <= n && n + 1 == |all| && Valid() && !pumpStopped
        invariant forall j :: 0 <= j <= i ==> writes(j)
        invariant PumpedUpTo(all, before, i + 1)
      {
        i := i + 1;
        FirstFailureAt(writes, |all|, i);
        WriteNext(all, before, i, writes(i));
        if pumpStopped {
          return;
        }
      }
      FirstFailureAt(writes, |all|, |all|);
    }

    /** The first i frames of the buffer are written, the others still in it. */
    ghost predicate PumpedUpTo(all: seq<Frame>, before: seq<Frame>, i: nat)
      reads this`send, this`written
    {
      i <= |all| && send == all[i..] && written == before + all[..i]
    }

    method WriteNext(ghost all: seq<Frame>, ghost before: seq<Frame>, ghost i: nat, ok: bool)
      requires Valid() && !pumpStopped && i < |all| && PumpedUpTo(all, before, i)
      modifies this`send, this`written, this`dropped, this`pumpStopped
      ensures Valid() && pumpStopped == !ok
      ensures ok ==> PumpedUpTo(all, before, i + 1)
      ensures !ok ==> send == all[i + 1..] && written == before + all[..i]
    {
      assert all[..i + 1] == all[..i] + [all[i]];
      WriteFront(ok);
    }

    /** The hub messages a client has written are an in-order subsequence of those meant for it. */
    lemma WrittenInOrder()
      requires Valid()
      ensures Subsequence(HubTexts(written), targeted)
    {
      HubTextsConcat(written, dropped + send);
      assert accepted == written + (dropped + send);
      PrefixOfSubsequence(HubTexts(written), HubTexts(accepted), targeted);
    }
  }

  // ---------------------------------------------------------------- the hub

  type Index = map<int, set<Client>>

  function ClientsAt(index: Index, id: int): set<Client> {
    if id in index then index[id] else {}
  }

  /** The two ways of grouping clients. */
  datatype Grouping = ByUser | ByTenant {
    function IdOf(c: Client): int {
      if ByUser? then c.userId else c.tenantId
    }
  }

  function Having(members: set<Client>, g: Grouping, id: int): set<Client> {
    set c | c in members && g.IdOf(c) == id
  }

  /** An index lists exactly the members, each under its own id, and keeps no empty entry. */
  ghost predicate Indexes(index: Index, members: set<Client>, g: Grouping) {
    forall id :: ClientsAt(index, id) == Having(members, g, id) && (id in index ==> index[id] != {})
  }

  lemma ListedUnderId(index: Index, members: set<Client>, g: Grouping, c: Client)
    requires Indexes(index, members, g)
    ensures c in ClientsAt(index, g.IdOf(c)) <==> c in members
  {
  }

  lemma NobodyListed(index: Index, members: set<Client>, g: Grouping, id: int)
    requires Indexes(index, members, g) && id !in index
    ensures forall c :: c in members ==> g.IdOf(c) != id
  {
    assert ClientsAt(index, id) == Having(members, g, id);
    forall c | c in members
      ensures g.IdOf(c) != id
    {
      assert c !in Having(members, g, id);
    }
  }

  lemma EveryoneListed(index: Index, members: set<Client>)
    requires Indexes(index, members, ByUser)
    ensures forall c :: c in members ==> c.userId in index && c in index[c.userId]
  {
    forall c | c in members
      ensures c.userId in index && c in index[c.userId]
    {
      ListedUnderId(index, members, ByUser, c);
    }
  }

  lemma OnlyMembersListed(index: Index, members: set<Client>)
    requires Indexes(index, members, ByUser)
    ensures forall id, c :: id in index && c in index[id] ==> c in members && c.userId == id
  {
  }

  method AddToIndex(index: Index, ghost members: set<Client>, g: Grouping, c: Client) returns (r: Index)
    requires Indexes(index, members, g)
    ensures Indexes(r, members + {c}, g)
  {
    var id := g.IdOf(c);
    r := index[id := ClientsAt(index, id) + {c}];
    forall other
      ensures ClientsAt(r, other) == Having(members + {c}, g, other) && (other in r ==> r[other] != {})
    {
      assert ClientsAt(index, other) == Having(members, g, other);
      assert c in ClientsAt(r, id);
    }
  }

  /** Removes the client, and its id's entry with it when it was the last one. */
  method RemoveFromIndex(index: Index, ghost members: set<Client>, g: Grouping, c: Client)
    returns (r: Index, found: bool)
    requires Indexes(index, members, g)
    ensures Indexes(r, members - {c}, g)
    ensures found <==> c in members
  {
    var id := g.IdOf(c);
    ListedUnderId(index, members, g, c);
    r, found := index, false;
    if id in index && c in index[id] {
      found := true;
      var rest := index[id] - {c};
      r := if rest == {} then index - {id} else index[id := rest];
    }
    forall other
      ensures ClientsAt(r, other) == Having(members - {c}, g, other) && (other in r ==> r[other] != {})
    {
      assert ClientsAt(index, other) == Having(members, g, other);
      assert Having(members - {c}, g, other) == Having(members, g, other) - {c};
    }
  }

  ghost function Highest(values: seq<int>): int {
    if values == [] then 0
    else if Highest(values[..|values| - 1]) < values[|values| - 1] then values[|values| - 1]
    else Highest(values[..|values| - 1])
  }

  lemma GrowSet(s: set<Client>, c: Client)
    ensures |s + {c}| == |s| + (if c in s then 0 else 1)
  {
    assert c in s ==> s + {c} == s;
  }

  lemma HighestAppend(values: seq<int>, v: int)
    ensures Highest(values + [v]) == if Highest(values) < v then v else Highest(values)
  {
  }

  /** The sum of the clients' numbers. */
  ghost function SumOf(cs: seq<Client>, counts: map<Client, nat>): nat
    requires forall c :: c in cs ==> c in counts
  {
    if cs == [] then 0 else SumOf(cs[..|cs| - 1], counts) + counts[cs[|cs| - 1]]
  }

  /** How many hub messages each client's buffer has taken. */
  ghost function Received(cs: seq<Client>): (r: map<Client, nat>)
    reads cs`entered
    ensures r.Keys == set c | c in cs
  {
    map c | c in cs :: |c.entered|
  }

  /** All hub messages that entered these clients' buffers. */
  ghost function TotalEntered(cs: seq<Client>): nat
    reads cs`entered
  {
    SumOf(cs, Received(cs))
  }

  ghost predicate Distinct(cs: seq<Client>) {
    forall i, j :: 0 <= i < j < |cs| ==> cs[i] != cs[j]
  }

  lemma {:induction false} SumGrows(cs: seq<Client>, before: map<Client, nat>, after: map<Client, nat>,
                                    takers: set<Client>)
    requires Distinct(cs) && forall c :: c in takers ==> c in cs
    requires forall c :: c in cs ==> c in before && c in after && after[c] == before[c] + (if c in takers then 1 else 0)
    ensures SumOf(cs, after) == SumOf(cs, before) + |takers|
  {
    if cs == [] {
      assert takers == {};
    } else {
      var n := |cs| - 1;
      var last := cs[n];
      assert forall c :: c in cs <==> c in cs[..n] || c == last;
      assert last !in cs[..n];
      SumGrows(cs[..n], before, after, takers - {last});
      assert last in takers ==> takers == (takers - {last}) + {last};
      assert last !in takers ==> takers == takers - {last};
    }
  }

  lemma SumAppend(cs: seq<Client>, c: Client, counts: map<Client, nat>, more: map<Client, nat>)
    requires c !in cs && c in more && forall x :: x in cs ==> x in counts && x in more && more[x] == counts[x]
    ensures forall x :: x in cs + [c] ==> x in more
    ensures SumOf(cs + [c], more) == SumOf(cs, counts) + more[c]
  {
    assert (cs + [c])[..|cs|] == cs;
    SumGrowsNot(cs, counts, more);
  }

  lemma {:induction false} SumGrowsNot(cs: seq<Client>, before: map<Client, nat>, after: map<Client, nat>)
    requires forall c :: c in cs ==> c in before && c in after && after[c] == before[c]
    ensures SumOf(cs, after) == SumOf(cs, before)
  {
    if cs != [] {
      SumGrowsNot(cs[..|cs| - 1], before, after);
    }
  }

  /** A client that joins brings along what has entered its buffer, for a fresh one nothing. */
  lemma JoiningClientAdds(cs: seq<Client>, c: Client)
    requires c !in cs
    ensures TotalEntered(cs + [c]) == TotalEntered(cs) + |c.entered|
  {
    SumAppend(cs, c, Received(cs), Received(cs + [c]));
  }

  class Hub {
    var clients: Index
    var tenants: Index
    var totalConnections: int
    var peakConnections: int
    var messagesDelivered: nat
    var stopped: bool
    ghost var members: set<Client>    // listed
    ghost var connected: set<Client>  // registered and not unregistered since; Stop leaves them in
    ghost var repeats: nat            // registrations of a client that was connected already
    ghost var strays: nat             // unregistrations of a client that was not connected
    ghost var totals: seq<int>        // the connection count after each change
    ghost var seen: seq<Client>       // every client ever registered

    ghost predicate Valid()
      reads this`clients, this`tenants, this`members, this`seen, this`totalConnections, this`peakConnections,
            this`connected, this`repeats, this`strays, this`totals
    {
      && Listed()
      && members <= connected && Distinct(seen) && (forall c :: c in members ==> c in seen)
      && Counted()
    }

    /** Both indexes hold exactly the members. */
    ghost predicate Listed()
      reads this`clients, this`tenants, this`members
    {
      Indexes(clients, members, ByUser) && Indexes(tenants, members, ByTenant)
    }

    ghost predicate Counted()
      reads this`totalConnections, this`peakConnections, this`connected, this`repeats, this`strays, this`totals
    {
      && totalConnections == |connected| + repeats - strays
      && peakConnections == Highest(totals)
      && totalConnections <= peakConnections
    }

    /** No listed client's channel is closed, so the hub may send to all of them. */
    ghost predicate AllOpen()
      reads this`members, members`closed
    {
      forall c :: c in members ==> !c.closed
    }

    constructor ()
      ensures Valid() && AllOpen() && members == {} && messagesDelivered == 0 == TotalEntered(seen) && connected == {}
              && repeats == strays == 0 && peakConnections == 0 && !stopped
    {
      clients, tenants, members := map[], map[], {};
      totalConnections, peakConnections, messagesDelivered, stopped := 0, 0, 0, false;
      connected, repeats, strays, totals, seen := {}, 0, 0, [], [];
    }

    /** The count is the number of connected clients if and only if stray unregistrations and repeated registrations
        balance: when every client is registered once, if and only if none was unregistered while not connected. For the
        listed clients, those that Stop took out count as well. */
    lemma CountExactIff()
      requires Valid()
      ensures totalConnections == |connected| <==> repeats == strays
      ensures totalConnections == |members| <==> |connected - members| + repeats == strays
    {
      assert connected == members + (connected - members);
    }

    /** Listing a client twice changes only the count. What has entered the buffers of the clients ever registered grows
        by what a new client brings along, which is nothing for a fresh one. */
    method RegisterClient(client: Client)
      requires Valid()
      modifies this`clients, this`tenants, this`members, this`totalConnections, this`peakConnections,
               this`connected, this`repeats, this`totals, this`seen
      ensures Valid() && members == old(members) + {client} && connected == old(connected) + {client}
      ensures old(AllOpen()) && !client.closed ==> AllOpen()
      ensures repeats == old(repeats) + (if client in old(connected) then 1 else 0)
      ensures totalConnections == old(totalConnections) + 1 && totals == old(totals) + [totalConnections]
      ensures peakConnections ==
                if totalConnections > old(peakConnections) then totalConnections else old(peakConnections)
      ensures seen == if client in old(seen) then old(seen) else old(seen) + [client]
      ensures TotalEntered(seen) == old(TotalEntered(seen)) + (if client in old(seen) then 0 else |client.entered|)
    {
      ghost var before := TotalEntered(seen);
      Connect(client);
      assert TotalEntered(old(seen)) == before;
      if client !in old(seen) {
        JoiningClientAdds(old(seen), client);
      }
    }

    method Connect(client: Client)
      requires Valid()
      modifies this`clients, this`tenants, this`members, this`totalConnections, this`peakConnections,
               this`connected, this`repeats, this`totals, this`seen
      ensures Valid() && members == old(members) + {client} && connected == old(connected) + {client}
      ensures old(AllOpen()) && !client.closed ==> AllOpen()
      ensures repeats == old(repeats) + (if client in old(connected) then 1 else 0)
      ensures totalConnections == old(totalConnections) + 1 && totals == old(totals) + [totalConnections]
      ensures peakConnections ==
                if totalConnections > old(peakConnections) then totalConnections else old(peakConnections)
      ensures seen == if client in old(seen) then old(seen) else old(seen) + [client]
    {
      ListClient(client);
      CountUp(client);
      seen := if client in seen then seen else seen + [client];
    }

    method ListClient(client: Client)
      requires Listed()
      modifies this`clients, this`tenants, this`members
      ensures Listed() && members == old(members) + {client}
    {
      clients := AddToIndex(clients, members, ByUser, client);
      tenants := AddToIndex(tenants, members, ByTenant, client);
      members := members + {client};
    }

    method CountUp(client: Client)
      requires Counted()
      modifies this`totalConnections, this`peakConnections, this`connected, this`repeats, this`totals
      ensures Counted() && connected == old(connected) + {client}
      ensures repeats == old(repeats) + (if client in old(connected) then 1 else 0)
      ensures totalConnections == old(totalConnections) + 1 && totals == old(totals) + [totalConnections]
      ensures peakConnections ==
                if totalConnections > old(peakConnections) then totalConnections else old(peakConnections)
    {
      var total := totalConnections + 1;
      HighestAppend(totals, total);
      GrowSet(connected, client);
      peakConnections := if total > peakConnections then total else peakConnections;
      repeats, connected := repeats + (if client in connected then 1 else 0), connected + {client};
      totalConnections, totals := total, totals + [total];
    }

    /** Lowers the count even for a client that is no longer listed. */
    method UnregisterClient(client: Client)
      requires Valid()
      modifies this`clients, this`tenants, this`members, this`totalConnections, this`connected, this`strays, this`totals
      modifies client`closed
      ensures Valid() && members == old(members) - {client} && connected == old(connected) - {client}
      ensures client.closed == (client in old(members) || old(client.closed))
      ensures old(AllOpen()) ==> AllOpen()
      ensures strays == old(strays) + (if client in old(connected) then 0 else 1)
      ensures totalConnections == old(totalConnections) - 1 && totals == old(totals) + [totalConnections]
      ensures peakConnections == old(peakConnections)
    {
      var wasListed := UnlistClient(client);
      if wasListed {
        client.Close();
      }
      CountDown(client);
    }

    method UnlistClient(client: Client) returns (wasListed: bool)
      requires Listed()
      modifies this`clients, this`tenants, this`members
      ensures Listed() && members == old(members) - {client} && (wasListed <==> client in old(members))
    {
      var byUser, wasUser := RemoveFromIndex(clients, members, ByUser, client);
      var byTenant, wasTenant := RemoveFromIndex(tenants, members, ByTenant, client);
      clients, tenants, members := byUser, byTenant, members - {client};
      return wasUser;
    }

    method CountDown(client: Client)
      requires Counted()
      modifies this`totalConnections, this`connected, this`strays, this`totals
      ensures Counted() && connected == old(connected) - {client}
      ensures strays == old(strays) + (if client in old(connected) then 0 else 1)
      ensures totalConnections == old(totalConnections) - 1 && totals == old(totals) + [totalConnections]
    {
      var total := totalConnections - 1;
      HighestAppend(totals, total);
      GrowSet(connected - {client}, client);
      assert client in connected ==> connected == connected - {client} + {client};
      assert client !in connected ==> connected == connected - {client};
      strays, connected := strays + (if client in connected then 0 else 1), connected - {client};
      totalConnections, totals := total, totals + [total];
    }

    /** Closes every client and empties both indexes; the counters stay as they are. */
    method Stop()
      requires Valid()
      modifies this`clients, this`tenants, this`members, this`stopped, members`closed
      ensures Valid() && AllOpen() && members == {} && clients == map[] && tenants == map[] && stopped
      ensures forall c :: c in old(members) ==> c.closed
    {
      stopped := true;
      CloseListed();
      clients, tenants, members := map[], map[], {};
    }

    /** Goes through the users and closes the clients of each. */
    method CloseListed()
      requires Listed()
      modifies members`closed
      ensures forall c :: c in members ==> c.closed
    {
      var users := clients.Keys;
      EveryoneListed(clients, members);
      while users != {}
        invariant users <= clients.Keys
        invariant forall c :: c in members && c.userId !in users ==> c.closed
        decreases users
      {
        var userId := Pick(users);
        assert ClientsAt(clients, userId) == Having(members, ByUser, userId);
        CloseAll(clients[userId]);
        users := users - {userId};
      }
    }

    method CloseAll(targets: set<Client>)
      modifies targets`closed
      ensures forall c :: c in targets ==> c.closed
    {
      var rest := targets;
      while rest != {}
        invariant rest <= targets
        invariant forall c :: c in targets && c !in rest ==> c.closed
        decreases rest
      {
        var client := Pick(rest);
        client.Close();
        rest := rest - {client};
      }
    }

    method SendToUser(userId: int, text: Text, category: string)
      requires Valid() && AllOpen()
      modifies this`messagesDelivered, members`send, members`accepted, members`entered, members`targeted
      ensures Valid() && AllOpen()
      ensures forall c :: c in members && old(c.Valid()) ==> c.Valid()
      ensures forall c :: c in members ==>
                Delivered(c, c.userId == userId && Wants(c, category), text, old(c.send), old(c.targeted),
                          old(c.entered))
      ensures messagesDelivered == old(messagesDelivered) + old(|Takers(Having(members, ByUser, userId), category)|)
    {
      if userId !in clients {
        NobodyListed(clients, members, ByUser, userId);
        assert Having(members, ByUser, userId) == {};
        return;
      }
      assert ClientsAt(clients, userId) == Having(members, ByUser, userId);
      assert forall c :: c in members ==> (c.userId == userId <==> c in Having(members, ByUser, userId));
      var delivered := SendEach(clients[userId], text, category);
      messagesDelivered := messagesDelivered + delivered;
    }

    method SendToTenant(tenantId: int, text: Text, category: string)
      requires Valid() && AllOpen()
      modifies this`messagesDelivered, members`send, members`accepted, members`entered, members`targeted
      ensures Valid() && AllOpen()
      ensures forall c :: c in members && old(c.Valid()) ==> c.Valid()
      ensures forall c :: c in members ==>
                Delivered(c, c.tenantId == tenantId && Wants(c, category), text, old(c.send), old(c.targeted),
                          old(c.entered))
      ensures messagesDelivered == old(messagesDelivered) + old(|Takers(Having(members, ByTenant, tenantId), category)|)
    {
      assert ClientsAt(tenants, tenantId) == Having(members, ByTenant, tenantId);
      assert forall c :: c in members ==> (c.tenantId == tenantId <==> c in Having(members, ByTenant, tenantId));
      if tenantId !in tenants {
        return;
      }
      var delivered := SendEach(tenants[tenantId], text, category);
      messagesDelivered := messagesDelivered + delivered;
    }

    /** Goes through every user's clients and ignores categories. */
    method SendToAll(text: Text)
      requires Valid() && AllOpen()
      modifies this`messagesDelivered, members`send, members`accepted, members`entered, members`targeted
      ensures Valid() && AllOpen()
      ensures forall c :: c in members && old(c.Valid()) ==> c.Valid()
      ensures forall c :: c in members ==> Delivered(c, true, text, old(c.send), old(c.targeted), old(c.entered))
      ensures messagesDelivered == old(messagesDelivered) + old(|Takers(members, "")|)
    {
      var all := Everyone();
      var delivered := SendEach(all, text, "");
      messagesDelivered := messagesDelivered + delivered;
    }

    method Everyone() returns (all: set<Client>)
      requires Listed()
      ensures all == members
    {
      EveryoneListed(clients, members);
      OnlyMembersListed(clients, members);
      all := AllListed(clients, members);
    }

    /** One dispatch appends the text once to the buffers with room of exactly the clients it is meant for: those of the
        user or tenant that have no subscriptions or, if the message names a category, that one among them; everybody,
        if it is for all. The appends are counted. As no other method of the hub changes the delivered count or what
        entered a buffer, over any run the delivered count is the number of hub messages that entered the buffers of the
        clients ever registered. */
    method DispatchBroadcast(msg: BroadcastMessage)
      requires Valid() && AllOpen()
      modifies this`messagesDelivered, members`send, members`accepted, members`entered, members`targeted
      ensures Valid() && AllOpen()
      ensures forall c :: c in members && old(c.Valid()) ==> c.Valid()
      ensures forall c :: c in members ==>
                if MeantFor(c.userId, c.tenantId, c.subscriptions, msg) then
                  && c.targeted == old(c.targeted) + [msg.text]
                  && if |old(c.send)| < 256 then
                       c.send == old(c.send) + [FromHub(msg.text)] && c.entered == old(c.entered) + [msg.text]
                     else c.send == old(c.send) && c.entered == old(c.entered)
                else c.send == old(c.send) && c.targeted == old(c.targeted) && c.entered == old(c.entered)
      ensures messagesDelivered == old(messagesDelivered)
                + old(|set c | c in members && MeantFor(c.userId, c.tenantId, c.subscriptions, msg) && |c.send| < 256|)
      ensures messagesDelivered - TotalEntered(seen) == old(messagesDelivered - TotalEntered(seen))
    {
      ghost var counts, takers := Received(seen), Accepting(members, msg);
      assert takers == set c | c in members && MeantFor(c.userId, c.tenantId, c.subscriptions, msg) && |c.send| < 256;
      Dispatch(msg);
      forall c | c in seen
        ensures Received(seen)[c] == counts[c] + (if c in takers then 1 else 0)
      {
        if c in members {
          assert Delivered(c, Receives(c, msg), msg.text, old(c.send), old(c.targeted), old(c.entered));
        }
      }
      SumGrows(seen, counts, Received(seen), takers);
    }

    /** Chooses the fan-out by the target. */
    method Dispatch(msg: BroadcastMessage)
      requires Valid() && AllOpen()
      modifies this`messagesDelivered, members`send, members`accepted, members`entered, members`targeted
      ensures Valid() && AllOpen()
      ensures forall c :: c in members && old(c.Valid()) ==> c.Valid()
      ensures forall c :: c in members ==>
                Delivered(c, Receives(c, msg), msg.text, old(c.send), old(c.targeted), old(c.entered))
      ensures messagesDelivered == old(messagesDelivered) + old(|Accepting(members, msg)|)
    {
      match msg.target
      case ToUser(userId) =>
        assert Accepting(members, msg) == Takers(Having(members, ByUser, userId), msg.category);
        SendToUser(userId, msg.text, msg.category);
      case ToTenant(tenantId) =>
        assert Accepting(members, msg) == Takers(Having(members, ByTenant, tenantId), msg.category);
        SendToTenant(tenantId, msg.text, msg.category);
      case ToAll =>
        assert Accepting(members, msg) == Takers(members, "");
        SendToAll(msg.text);
    }
  }

  /** A run on which the count goes wrong: one client, registered once and unregistered twice. */
  method UnregisterTwice(client: Client) returns (hub: Hub)
    modifies client`closed
    ensures hub.Valid() && hub.connected == {} && hub.repeats == 0 && hub.strays == 1 && hub.totalConnections == -1
  {
    hub := new Hub();
    hub.RegisterClient(client);
    assert hub.connected == {client} && hub.repeats == 0 && hub.totalConnections == 1;
    hub.UnregisterClient(client);
    assert hub.connected == {} && hub.strays == 0 && hub.totalConnections == 0;
    hub.UnregisterClient(client);
  }

  /** What a broadcast asks of a client, in terms of its columns alone. */
  ghost predicate MeantFor(userId: int, tenantId: int, subscriptions: set<string>, msg: BroadcastMessage) {
    match msg.target
    case ToAll => true
    case ToUser(id) => userId == id && (msg.category == "" || subscriptions == {} || msg.category in subscriptions)
    case ToTenant(id) => tenantId == id && (msg.category == "" || subscriptions == {} || msg.category in subscriptions)
  }

  /** Whether a broadcast is meant for a client: by user or tenant, and by category if it names one. */
  predicate Receives(c: Client, msg: BroadcastMessage)
    reads c`subscriptions
  {
    match msg.target
    case ToUser(userId) => c.userId == userId && Wants(c, msg.category)
    case ToTenant(tenantId) => c.tenantId == tenantId && Wants(c, msg.category)
    case ToAll => true
  }

  ghost function Accepting(members: set<Client>, msg: BroadcastMessage): set<Client>
    reads members`subscriptions, members`send
  {
    set c | c in members && Receives(c, msg) && |c.send| < SEND_BUFFER_SIZE
  }

  predicate Wants(c: Client, category: string)
    reads c`subscriptions
  {
    category == "" || c.IsSubscribed(category)
  }

  /** The clients that want the message and have room for it. */
  ghost function Takers(targets: set<Client>, category: string): set<Client>
    reads targets`subscriptions, targets`send
  {
    set c | c in targets && Wants(c, category) && |c.send| < SEND_BUFFER_SIZE
  }

  /** A client's buffer, the messages meant for it and those it accepted, before and after one dispatch. */
  ghost predicate Delivered(c: Client, meant: bool, text: Text, send: seq<Frame>, targeted: seq<Text>,
                            received: seq<Text>)
    reads c`send, c`targeted, c`entered
  {
    if meant then
      && c.send == Offered(send, FromHub(text)) && c.targeted == targeted + [text]
      && c.entered == received + (if |send| < SEND_BUFFER_SIZE then [text] else [])
    else c.send == send && c.targeted == targeted && c.entered == received
  }

  /** One client's turn in a fan-out. */
  method OfferTo(client: Client, text: Text, category: string) returns (delivered: bool)
    requires !client.closed
    modifies client`send, client`accepted, client`entered, client`targeted
    ensures old(client.Valid()) ==> client.Valid()
    ensures Delivered(client, Wants(client, category), text, old(client.send), old(client.targeted),
                      old(client.entered))
    ensures delivered <==> Wants(client, category) && |old(client.send)| < SEND_BUFFER_SIZE
  {
    if category != "" && !client.IsSubscribed(category) {
      return false;
    }
    var full := client.Send(text);
    return !full;
  }

  method SendEach(targets: set<Client>, text: Text, category: string) returns (delivered: nat)
    requires forall c :: c in targets ==> !c.closed
    modifies targets`send, targets`accepted, targets`entered, targets`targeted
    ensures forall c :: c in targets && old(c.Valid()) ==> c.Valid()
    ensures forall c :: c in targets ==>
              Delivered(c, Wants(c, category), text, old(c.send), old(c.targeted), old(c.entered))
    ensures delivered == old(|Takers(targets, category)|)
  {
    delivered := 0;
    var rest := targets;
    ghost var takers, took := Takers(targets, category), {};
    while rest != {}
      invariant rest <= targets
      invariant forall c :: c in targets && old(c.Valid()) ==> c.Valid()
      invariant forall c :: c in targets ==>
                  Delivered(c, c !in rest && Wants(c, category), text, old(c.send), old(c.targeted), old(c.entered))
      invariant forall c :: c in took <==> c in takers && c !in rest
      invariant delivered == |took|
      decreases rest
    {
      var client := Pick(rest);
      rest := rest - {client};
      var accepted := OfferTo(client, text, category);
      if accepted {
        delivered := delivered + 1;
        took := took + {client};
      }
    }
    assert took == takers;
  }

  /** Every user's clients in turn. */
  method AllListed(index: Index, ghost members: set<Client>) returns (all: set<Client>)
    requires forall id, c :: id in index && c in index[id] ==> c in members && c.userId == id
    requires forall c :: c in members ==> c.userId in index && c in index[c.userId]
    ensures all == members
  {
    all := {};
    var users := index.Keys;
    while users != {}
      invariant users <= index.Keys
      invariant all <= members && forall c :: c in members ==> (c in all <==> c.userId !in users)
      decreases users
    {
      var userId := Pick(users);
      all := all + index[userId];
      users := users - {userId};
    }
  }
}
