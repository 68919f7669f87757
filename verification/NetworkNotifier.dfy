/**
 * The Android network-change delegate (android/network_change_notifier_delegate_android.cc): it
 * keeps a map of connected networks, removes duplicate platform events and notifies observers.
 * What the observers see is the ghost log; replaying that log must give back the delegate's map.
 */
module NetworkNotifiers {
  import opened Basics

  /** NetworkChangeNotifier::kInvalidNetworkHandle */
  const INVALID: int := -1

  datatype Notification =
    | Connected(net: int)
    | SoonToDisconnect(net: int)
    | Disconnected(net: int)
    | MadeDefault(net: int)
    | ConnectionTypeChanged

  /** What an observer knows after one more notification; None once it is told something impossible. */
  function Observe(known: set<int>, n: Notification): Option<set<int>> {
    match n
    case Connected(net) => if net in known then None else Some(known + {net})
    case Disconnected(net) => if net in known then Some(known - {net}) else None
    case SoonToDisconnect(net) => if net in known then Some(known) else None
    case MadeDefault(net) => if net in known then Some(known) else None
    case ConnectionTypeChanged => Some(known)
  }

  function Replay(initial: set<int>, log: seq<Notification>): Option<set<int>> {
    if log == [] then Some(initial)
    else match Replay(initial, log[..|log| - 1])
      case None => None
      case Some(known) => Observe(known, log[|log| - 1])
  }

  /** The network named by the last MadeDefault, or the default the observers started with. */
  function LastDefault(initial: int, log: seq<Notification>): int {
    if log == [] then initial
    else if log[|log| - 1].MadeDefault? then log[|log| - 1].net
    else LastDefault(initial, log[..|log| - 1])
  }

  /** Whether the invalid handle ever counted as a connected network. */
  ghost predicate InvalidSeen(initial: set<int>, log: seq<Notification>) {
    INVALID in initial || Connected(INVALID) in log
  }

  // ---- what a replayable log means ----

  lemma Append(initial: set<int>, initialDefault: int, log: seq<Notification>, n: Notification)
    ensures Replay(initial, log + [n]) ==
      (match Replay(initial, log) case None => None case Some(known) => Observe(known, n))
    ensures LastDefault(initialDefault, log + [n]) ==
      if n.MadeDefault? then n.net else LastDefault(initialDefault, log)
    ensures InvalidSeen(initial, log + [n]) <==> InvalidSeen(initial, log) || n == Connected(INVALID)
  {
    assert (log + [n])[..|log|] == log;
  }

  lemma {:induction false} PrefixReplays(initial: set<int>, log: seq<Notification>, k: nat)
    requires k <= |log| && Replay(initial, log).Some?
    ensures Replay(initial, log[..k]).Some?
    decreases |log| - k
  {
    if k < |log| {
      PrefixReplays(initial, log, k + 1);
      assert log[..k + 1][..k] == log[..k];
    } else {
      assert log[..k] == log;
    }
  }

  /** Each notification about a network names a network the observers know to be in the right state. */
  lemma Plausible(initial: set<int>, log: seq<Notification>, k: nat)
    requires k < |log| && Replay(initial, log).Some?
    ensures Replay(initial, log[..k]).Some?
    ensures Observe(Replay(initial, log[..k]).value, log[k]) == Replay(initial, log[..k + 1])
    ensures Replay(initial, log[..k + 1]).Some?
  {
    PrefixReplays(initial, log, k);
    PrefixReplays(initial, log, k + 1);
    assert log[..k + 1] == log[..k] + [log[k]];
    Append(initial, 0, log[..k], log[k]);
  }

  /** Membership changes only through a Connected or Disconnected of that very network. */
  lemma {:induction false} Unchanged(initial: set<int>, log: seq<Notification>, net: int, i: nat, j: nat)
    requires i <= j <= |log| && Replay(initial, log).Some?
    requires forall k :: i <= k < j ==> log[k] != Connected(net) && log[k] != Disconnected(net)
    ensures Replay(initial, log[..i]).Some? && Replay(initial, log[..j]).Some?
    ensures net in Replay(initial, log[..i]).value <==> net in Replay(initial, log[..j]).value
    decreases j - i
  {
    if i < j {
      Plausible(initial, log, i);
      Unchanged(initial, log, net, i + 1, j);
    } else {
      PrefixReplays(initial, log, i);
    }
  }

  /** Between two Connected of a network lies a Disconnected of it, and the other way round. */
  lemma Alternates(initial: set<int>, log: seq<Notification>, net: int, i: nat, j: nat)
    requires i < j < |log| && Replay(initial, log).Some?
    ensures log[i] == log[j] == Connected(net) ==> exists k :: i < k < j && log[k] == Disconnected(net)
    ensures log[i] == log[j] == Disconnected(net) ==> exists k :: i < k < j && log[k] == Connected(net)
  {
    if log[i] == log[j] == Connected(net) && forall k :: i < k < j ==> log[k] != Disconnected(net) {
      FirstRepeat(initial, log, Connected(net), Disconnected(net), i, j);
    }
    if log[i] == log[j] == Disconnected(net) && forall k :: i < k < j ==> log[k] != Connected(net) {
      FirstRepeat(initial, log, Disconnected(net), Connected(net), i, j);
    }
  }

  /** A repeated announcement without its opposite in between is not plausible. */
  lemma {:induction false} FirstRepeat(initial: set<int>, log: seq<Notification>, n: Notification,
                                       opposite: Notification, i: nat, j: nat)
    requires i < j < |log| && Replay(initial, log).Some?
    requires (n.Connected? && opposite == Disconnected(n.net)) || (n.Disconnected? && opposite == Connected(n.net))
    requires log[i] == log[j] == n && forall k :: i < k < j ==> log[k] != opposite
    ensures false
    decreases j - i
  {
    if m :| i < m < j && log[m] == n {
      FirstRepeat(initial, log, n, opposite, i, m);
    } else {
      Plausible(initial, log, i);
      Plausible(initial, log, j);
      Unchanged(initial, log, n.net, i + 1, j);
    }
  }

  lemma {:induction false} KnownWasAnnounced(initial: set<int>, log: seq<Notification>, net: int)
    requires Replay(initial, log).Some? && net in Replay(initial, log).value
    ensures net in initial || Connected(net) in log
  {
    if log != [] {
      var before := log[..|log| - 1];
      assert log == before + [log[|log| - 1]];
      if net in Replay(initial, before).value {
        KnownWasAnnounced(initial, before, net);
      }
    }
  }

  // ---- the delegate ----

  class NetworkNotifier {
    var networkMap: map<int, int>
    var defaultNetwork: int
    var connectionType: int
    ghost var log: seq<Notification>
    ghost const initial: set<int>
    ghost const initialDefault: int

    /** Whenever the default network is connected, it is the one last announced as default. */
    ghost predicate Coherent()
      reads this
    {
      defaultNetwork in networkMap ==> LastDefault(initialDefault, log) == defaultNetwork
    }

    ghost predicate Valid()
      reads this
    {
      Replay(initial, log) == Some(networkMap.Keys) && (!InvalidSeen(initial, log) ==> Coherent())
    }

    constructor (networks: map<int, int>, default: int, kind: int)
      ensures Valid() && networkMap == networks && defaultNetwork == default && connectionType == kind
      ensures log == [] && initial == networks.Keys && initialDefault == default
    {
      networkMap, defaultNetwork, connectionType := networks, default, kind;
      log, initial, initialDefault := [], networks.Keys, default;
    }

    ghost method Notify(n: Notification)
      modifies this`log
      ensures log == old(log) + [n]
      ensures Replay(initial, log) ==
        (match Replay(initial, old(log)) case None => None case Some(known) => Observe(known, n))
      ensures LastDefault(initialDefault, log) ==
        if n.MadeDefault? then n.net else LastDefault(initialDefault, old(log))
      ensures InvalidSeen(initial, log) <==> InvalidSeen(initial, old(log)) || n == Connected(INVALID)
    {
      Append(initial, initialDefault, log, n);
      log := log + [n];
    }

    method NotifyConnectionTypeChanged(kind: int, network: int)
      requires Valid()
      modifies this
      ensures Valid()
      ensures networkMap == old(networkMap) && defaultNetwork == network && connectionType == kind
      ensures log == old(log) +
        (if network != old(defaultNetwork) && network in networkMap then [MadeDefault(network)] else []) +
        [ConnectionTypeChanged]
      ensures network in networkMap && old(Coherent()) ==> LastDefault(initialDefault, log) == network
    {
      connectionType := kind;
      if network != defaultNetwork {
        defaultNetwork := network;
        if network in networkMap {
          Notify(MadeDefault(network));
        }
      }
      Notify(ConnectionTypeChanged);
    }

    method NotifyOfNetworkConnect(network: int, kind: int)
      requires Valid()
      modifies this
      ensures Valid()
      ensures networkMap == old(networkMap)[network := kind]
      ensures defaultNetwork == old(defaultNetwork) && connectionType == old(connectionType)
      ensures log == old(log) +
        (if network in old(networkMap) then []
         else if network == defaultNetwork then [Connected(network), MadeDefault(network)]
         else [Connected(network)])
    {
      var alreadyExists := network in networkMap;
      networkMap := networkMap[network := kind];
      assert networkMap.Keys == old(networkMap.Keys) + {network};
      assert alreadyExists ==> networkMap.Keys == old(networkMap.Keys);
      if !alreadyExists {
        Notify(Connected(network));
        if network == defaultNetwork {
          Notify(MadeDefault(network));
        }
      }
    }

    method NotifyOfNetworkSoonToDisconnect(network: int)
      requires Valid()
      modifies this`log
      ensures Valid()
      ensures log == old(log) + if network in networkMap then [SoonToDisconnect(network)] else []
    {
      if network !in networkMap {
        return;
      }
      Notify(SoonToDisconnect(network));
    }

    /** Forgetting the default leaves the observers coherent exactly when the invalid handle is not connected. */
    method NotifyOfNetworkDisconnect(network: int)
      requires Valid()
      modifies this
      ensures Valid()
      ensures networkMap == old(networkMap) - {network} && connectionType == old(connectionType)
      ensures defaultNetwork == if network == old(defaultNetwork) then INVALID else old(defaultNetwork)
      ensures log == old(log) + if network in old(networkMap) then [Disconnected(network)] else []
      ensures old(Coherent()) ==>
        (Coherent() <==> network != old(defaultNetwork) || network == INVALID || INVALID !in old(networkMap) ||
                         LastDefault(initialDefault, old(log)) == INVALID)
    {
      if !InvalidSeen(initial, log) && INVALID in networkMap {
        KnownWasAnnounced(initial, log, INVALID);
        assert false;
      }
      if network == defaultNetwork {
        defaultNetwork := INVALID;
      }
      if network !in networkMap {
        return;
      }
      networkMap := networkMap - {network};
      Notify(Disconnected(network));
    }

    /** The inner loop of the purge. */
    method IsActive(active: seq<int>, network: int) returns (found: bool)
      ensures found <==> network in active
    {
      found := false;
      for j := 0 to |active|
        invariant !found && network !in active[..j]
      {
        if active[j] == network {
          return true;
        }
      }
    }

    /** Networks that are no longer active are disconnected, in key order, and nothing else changes. */
    method NotifyPurgeActiveNetworkList(active: seq<int>) returns (gone: seq<int>)
      requires Valid()
      modifies this
      ensures Valid()
      ensures networkMap.Keys == set n | n in old(networkMap) && n in active
      ensures forall n :: n in networkMap ==> networkMap[n] == old(networkMap)[n]
      ensures connectionType == old(connectionType)
      ensures defaultNetwork == if old(defaultNetwork) in gone then INVALID else old(defaultNetwork)
      ensures StrictlyAscending(gone) && forall n :: n in gone <==> n in old(networkMap) && n !in active
      ensures log == old(log) + Announced(gone)
    {
      gone := Inactive(active);
      DisconnectAll(gone);
      forall n ensures n in networkMap.Keys <==> n in old(networkMap) && n in active {
        assert n in networkMap.Keys <==> n in old(networkMap) && n !in gone;
      }
    }

    /** The outer loop of the purge: the connected networks that are not active. */
    method Inactive(active: seq<int>) returns (gone: seq<int>)
      ensures StrictlyAscending(gone) && forall n :: n in gone <==> n in networkMap && n !in active
    {
      gone := [];
      var keys := SortedKeys(networkMap);
      for i := 0 to |keys|
        invariant StrictlyAscending(gone)
        invariant forall n :: n in gone ==> n in keys[..i] && n !in active
        invariant forall k :: 0 <= k < i && keys[k] !in active ==> keys[k] in gone
      {
        var found := IsActive(active, keys[i]);
        if !found {
          AscendingAppend(gone, keys[i]);
          gone := gone + [keys[i]];
        }
      }
    }

    method DisconnectAll(gone: seq<int>)
      requires Valid() && StrictlyAscending(gone) && forall n :: n in gone ==> n in networkMap
      modifies this
      ensures Valid()
      ensures networkMap == old(networkMap) - (set n | n in gone) && connectionType == old(connectionType)
      ensures defaultNetwork == if old(defaultNetwork) in gone then INVALID else old(defaultNetwork)
      ensures log == old(log) + Announced(gone)
    {
      hide Valid, Coherent, Announced, Replay, LastDefault;
      NothingAnnounced(gone);
      for i := 0 to |gone|
        invariant Valid() && connectionType == old(connectionType)
        invariant networkMap == old(networkMap) - (set n | n in gone[..i])
        invariant defaultNetwork == if old(defaultNetwork) in gone[..i] then INVALID else old(defaultNetwork)
        invariant log == old(log) + Announced(gone[..i])
      {
        AnnouncedStep(gone, i);
        NotifyOfNetworkDisconnect(gone[i]);
        assert gone[..i + 1] == gone[..i] + [gone[i]];
      }
      assert gone[..|gone|] == gone;
    }
  }

  predicate StrictlyAscending(nets: seq<int>) {
    forall i, j :: 0 <= i < j < |nets| ==> nets[i] < nets[j]
  }

  lemma AscendingAppend(nets: seq<int>, n: int)
    requires StrictlyAscending(nets) && forall x :: x in nets ==> x < n
    ensures StrictlyAscending(nets + [n])
  {
    assert forall i :: 0 <= i < |nets| ==> nets[i] in nets;
  }

  ghost function Announced(nets: seq<int>): seq<Notification> {
    seq(|nets|, i requires 0 <= i < |nets| => Disconnected(nets[i]))
  }

  lemma NothingAnnounced(nets: seq<int>)
    ensures Announced(nets[..0]) == []
  {
  }

  lemma AnnouncedStep(nets: seq<int>, i: nat)
    requires i < |nets|
    ensures Announced(nets[..i + 1]) == Announced(nets[..i]) + [Disconnected(nets[i])]
    ensures nets[i] in nets && nets[..i + 1] == nets[..i] + [nets[i]]
  {
  }

  /** The order in which a std::map is walked. */
  method SortedKeys(m: map<int, int>) returns (keys: seq<int>)
    ensures StrictlyAscending(keys) && forall n :: n in keys <==> n in m
  {
    keys := [];
    var rest := m.Keys;
    while rest != {}
      invariant StrictlyAscending(keys) && forall n :: n in m <==> n in keys || n in rest
      invariant forall x, y :: x in keys && y in rest ==> x < y
    {
      var least := Least(rest);
      AscendingAppend(keys, least);
      keys := keys + [least];
      rest := rest - {least};
    }
  }

  lemma Inhabited(s: set<int>)
    ensures s == {} || exists x :: x in s
  {
    if forall x :: x !in s {
      assert s == {};
    }
  }

  method Least(s: set<int>) returns (least: int)
    requires s != {}
    ensures least in s && forall y :: y in s ==> least <= y
  {
    Inhabited(s);
    least :| least in s;
    var rest := s;
    while rest != {}
      invariant rest <= s && least in s && forall y :: y in s && y !in rest ==> least <= y
    {
      Inhabited(rest);
      var y :| y in rest;
      least := if y < least then y else least;
      rest := rest - {y};
    }
  }

  /** With the invalid handle connected, a disconnect leaves the observers with the wrong default. */
  method InvalidHandleExample() returns (n: NetworkNotifier)
    ensures n.Valid() && n.defaultNetwork in n.networkMap
    ensures LastDefault(n.initialDefault, n.log) != n.defaultNetwork
  {
    n := new NetworkNotifier(map[1 := 0, INVALID := 0], 1, 0);
    n.NotifyOfNetworkDisconnect(1);
  }
}
