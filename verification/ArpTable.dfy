/** The ARP table: over any history of updates it remembers exactly the sixteen addresses updated last. */
module ArpTable {
  import opened ByteStrings

  const CAP := 16
  const MAC_LEN := 6

  type Mac = m: seq<byte> | |m| == MAC_LEN witness [0, 0, 0, 0, 0, 0]

  datatype Update = Update(ip: nat, mac: Mac)

  /** struct clks_net_arp_entry */
  datatype Entry = Entry(valid: bool, ip: nat, mac: Mac, stamp: nat)

  datatype Answer = Unknown | Known(mac: Mac)

  /** Nobody's address and everybody's. */
  predicate MacInvalid(mac: Mac) { mac == [0, 0, 0, 0, 0, 0] || mac == [0xFF, 0xFF, 0xFF, 0xFF, 0xFF, 0xFF] }

  /** clks_net_mac_invalid */
  method IsMacInvalid(mac: Mac) returns (invalid: bool)
    ensures invalid <==> mac == [0, 0, 0, 0, 0, 0] || mac == [0xFF, 0xFF, 0xFF, 0xFF, 0xFF, 0xFF]
  {
    var allZero, allFF := true, true;
    for i := 0 to MAC_LEN
      invariant allZero <==> forall k :: 0 <= k < i ==> mac[k] == 0
      invariant allFF <==> forall k :: 0 <= k < i ==> mac[k] == 0xFF
    {
      if mac[i] != 0 {
        allZero := false;
      }
      if mac[i] != 0xFF {
        allFF := false;
      }
    }
    return allZero || allFF;
  }

  // ---------- what a history of updates should be remembered as ----------

  /** Update `k` is the last one of its address. */
  ghost predicate IsLast(hist: seq<Update>, k: nat) {
    k < |hist| && forall j :: k < j < |hist| ==> hist[j].ip != hist[k].ip
  }

  /** The addresses updated after update `k`. */
  ghost function Since(hist: seq<Update>, k: nat): set<nat> {
    set j | k < j < |hist| :: hist[j].ip
  }

  /** Fewer than sixteen addresses were updated since the address was, and this is what it was updated to. */
  ghost predicate Remembered(hist: seq<Update>, k: nat) { IsLast(hist, k) && |Since(hist, k)| < CAP }

  // ---------- the table and the history ----------

  /** Every valid entry is the last update of its address, with its place in the history as stamp. */
  ghost predicate Faithful(table: seq<Entry>, hist: seq<Update>) {
    forall i :: 0 <= i < |table| && table[i].valid ==>
      && 1 <= table[i].stamp <= |hist| && IsLast(hist, table[i].stamp - 1)
      && hist[table[i].stamp - 1] == Update(table[i].ip, table[i].mac)
  }

  ghost predicate DistinctIps(table: seq<Entry>) {
    forall i, j :: 0 <= i < j < |table| && table[i].valid && table[j].valid ==> table[i].ip != table[j].ip
  }

  ghost predicate InTable(table: seq<Entry>, k: nat) {
    exists i :: 0 <= i < |table| && table[i].valid && table[i].stamp == k + 1
  }

  /** Every entry is valid and newer than update `k`. */
  ghost predicate AllNewer(table: seq<Entry>, k: nat) {
    forall i :: 0 <= i < |table| ==> table[i].valid && k + 1 < table[i].stamp
  }

  /** The last update of an address is in the table, unless the table is full of newer ones. */
  ghost predicate Kept(table: seq<Entry>, hist: seq<Update>) {
    forall k: nat :: IsLast(hist, k) ==> InTable(table, k) || AllNewer(table, k)
  }

  ghost predicate Valid(table: seq<Entry>, hist: seq<Update>) {
    |table| == CAP && Faithful(table, hist) && DistinctIps(table) && Kept(table, hist)
  }

  // ---------- counting ----------

  ghost function Ips(table: seq<Entry>): set<nat> { set i | 0 <= i < |table| :: table[i].ip }

  lemma {:induction false} IpsBounded(table: seq<Entry>)
    ensures |Ips(table)| <= |table|
  {
    if table != [] {
      var front, last := table[..|table| - 1], table[|table| - 1].ip;
      IpsBounded(front);
      assert Ips(table) == Ips(front) + {last} by {
        forall ip | ip in Ips(table) ensures ip in Ips(front) + {last} {
          var i :| 0 <= i < |table| && table[i].ip == ip;
          assert i < |front| ==> front[i].ip == ip;
        }
        forall ip | ip in Ips(front) ensures ip in Ips(table) {
          var i :| 0 <= i < |front| && front[i].ip == ip;
          assert table[i].ip == ip;
        }
      }
    }
  }

  lemma {:induction false} IpsCounted(table: seq<Entry>)
    requires DistinctIps(table) && forall i :: 0 <= i < |table| ==> table[i].valid
    ensures |Ips(table)| == |table|
  {
    if table != [] {
      var front, last := table[..|table| - 1], table[|table| - 1].ip;
      IpsCounted(front);
      assert Ips(table) == Ips(front) + {last} by {
        forall ip | ip in Ips(table) ensures ip in Ips(front) + {last} {
          var i :| 0 <= i < |table| && table[i].ip == ip;
          assert i < |front| ==> front[i].ip == ip;
        }
        forall ip | ip in Ips(front) ensures ip in Ips(table) {
          var i :| 0 <= i < |front| && front[i].ip == ip;
          assert table[i].ip == ip;
        }
      }
    }
  }

  lemma SubsetSize(a: set<nat>, b: set<nat>)
    requires a <= b
    ensures |a| <= |b|
  {
    assert b == a + (b - a);
  }

  lemma {:induction false} LastExists(hist: seq<Update>, j: nat) returns (k: nat)
    requires j < |hist|
    ensures j <= k && IsLast(hist, k) && hist[k].ip == hist[j].ip
    decreases |hist| - j
  {
    if l: nat :| j < l < |hist| && hist[l].ip == hist[j].ip {
      k := LastExists(hist, l);
    } else {
      k := j;
    }
  }

  /** An entry of the table is remembered by rights: the other fifteen hold whatever is newer. */
  lemma InTableRemembered(table: seq<Entry>, hist: seq<Update>, i: nat)
    requires Valid(table, hist) && i < |table| && table[i].valid
    ensures Remembered(hist, table[i].stamp - 1)
  {
    FaithfulAt(table, hist, i);
    assert |table| == CAP;
    hide Valid;
    hide IsLast;
    var k := table[i].stamp - 1;
    var others := table[..i] + table[i + 1..];
    forall ip | ip in Since(hist, k) ensures ip in Ips(others) {
      var j: nat :| k < j < |hist| && hist[j].ip == ip;
      var m := NewerInTable(table, hist, i, j);
      assert others[if m < i then m else m - 1] == table[m];
    }
    IpsBounded(others);
    SubsetSize(Since(hist, k), Ips(others));
  }

  /** The address of any update newer than an entry has an entry of its own. */
  lemma NewerInTable(table: seq<Entry>, hist: seq<Update>, i: nat, j: nat) returns (m: nat)
    requires Valid(table, hist) && i < |table| && table[i].valid && table[i].stamp <= j < |hist|
    ensures m < |table| && m != i && table[m].ip == hist[j].ip
  {
    hide Valid;
    hide IsLast;
    var l := LastExists(hist, j);
    KeptAt(table, hist, l);
    assert !AllNewer(table, l);
    m :| m < |table| && table[m].valid && table[m].stamp == l + 1;
    FaithfulAt(table, hist, m);
  }

  lemma KeptAt(table: seq<Entry>, hist: seq<Update>, k: nat)
    requires Valid(table, hist) && IsLast(hist, k)
    ensures InTable(table, k) || AllNewer(table, k)
  {
  }

  lemma FaithfulAt(table: seq<Entry>, hist: seq<Update>, i: nat)
    requires Valid(table, hist) && i < |table| && table[i].valid
    ensures 1 <= table[i].stamp <= |hist| && IsLast(hist, table[i].stamp - 1)
    ensures hist[table[i].stamp - 1] == Update(table[i].ip, table[i].mac)
  {
    hide Kept;
    hide DistinctIps;
  }

  /** What is not in the table is forgotten by rights: sixteen addresses are newer. */
  lemma ForgottenByRights(table: seq<Entry>, hist: seq<Update>, k: nat)
    requires Valid(table, hist) && IsLast(hist, k) && !InTable(table, k)
    ensures !Remembered(hist, k)
  {
    assert AllNewer(table, k);
    IpsCounted(table);
    forall ip | ip in Ips(table) ensures ip in Since(hist, k) {
      var i :| 0 <= i < |table| && table[i].ip == ip;
      assert k < table[i].stamp - 1 < |hist| && hist[table[i].stamp - 1].ip == ip;
    }
    SubsetSize(Ips(table), Since(hist, k));
  }

  // ---------- an update ----------

  lemma LastAfter(hist: seq<Update>, u: Update, k: nat)
    ensures IsLast(hist + [u], k) <==> k == |hist| || (IsLast(hist, k) && hist[k].ip != u.ip)
  {
    var all := hist + [u];
    assert all[|hist|] == u;
    assert forall j :: 0 <= j < |hist| ==> all[j] == hist[j];
    if IsLast(all, k) && k < |hist| {
      assert all[|hist|].ip != all[k].ip;
      forall j | k < j < |hist| ensures hist[j].ip != hist[k].ip {
        assert all[j].ip != all[k].ip;
      }
    }
  }

  /** The slot an update may take: that of its address, a free one, or the oldest. */
  ghost predicate Chosen(table: seq<Entry>, ip: nat, s: nat) {
    && s < |table|
    && if exists i :: 0 <= i < |table| && table[i].valid && table[i].ip == ip then table[s].valid && table[s].ip == ip
       else !table[s].valid || forall i :: 0 <= i < |table| ==> table[i].valid && table[s].stamp <= table[i].stamp
  }

  lemma ChosenFound(table: seq<Entry>, ip: nat, s: nat)
    requires s < |table| && table[s].valid && table[s].ip == ip
    ensures Chosen(table, ip, s)
  {
  }

  lemma ChosenNew(table: seq<Entry>, ip: nat, s: nat)
    requires s < |table| && forall i :: 0 <= i < |table| ==> !(table[i].valid && table[i].ip == ip)
    requires !table[s].valid || forall i :: 0 <= i < |table| ==> table[i].valid && table[s].stamp <= table[i].stamp
    ensures Chosen(table, ip, s)
  {
  }

  lemma FaithfulAfter(table: seq<Entry>, hist: seq<Update>, u: Update, s: nat)
    requires Valid(table, hist) && Chosen(table, u.ip, s)
    ensures Faithful(table[s := Entry(true, u.ip, u.mac, |hist| + 1)], hist + [u])
    ensures DistinctIps(table[s := Entry(true, u.ip, u.mac, |hist| + 1)])
  {
    var table', hist' := table[s := Entry(true, u.ip, u.mac, |hist| + 1)], hist + [u];
    OthersDiffer(table, u.ip, s);
    forall i | 0 <= i < |table'| && table'[i].valid
      ensures 1 <= table'[i].stamp <= |hist'| && IsLast(hist', table'[i].stamp - 1)
              && hist'[table'[i].stamp - 1] == Update(table'[i].ip, table'[i].mac)
    {
      LastAfter(hist, u, table'[i].stamp - 1);
      hide Kept;
      hide IsLast;
    }
  }

  lemma OthersDiffer(table: seq<Entry>, ip: nat, s: nat)
    requires DistinctIps(table) && Chosen(table, ip, s)
    ensures forall i :: 0 <= i < |table| && i != s && table[i].valid ==> table[i].ip != ip
  {
    forall i | 0 <= i < |table| && i != s && table[i].valid ensures table[i].ip != ip {
      assert table[s].valid ==> table[i].ip != table[s].ip;
    }
  }

  lemma KeptAfter(table: seq<Entry>, hist: seq<Update>, u: Update, s: nat)
    requires Valid(table, hist) && Chosen(table, u.ip, s)
    ensures Kept(table[s := Entry(true, u.ip, u.mac, |hist| + 1)], hist + [u])
  {
    var table', hist' := table[s := Entry(true, u.ip, u.mac, |hist| + 1)], hist + [u];
    forall k: nat | IsLast(hist', k) ensures InTable(table', k) || AllNewer(table', k) {
      LastAfter(hist, u, k);
      if k == |hist| {
        assert table'[s].valid && table'[s].stamp == k + 1;
      } else {
        KeptOne(table, hist, u, s, k);
      }
    }
  }

  lemma KeptOne(table: seq<Entry>, hist: seq<Update>, u: Update, s: nat, k: nat)
    requires Valid(table, hist) && Chosen(table, u.ip, s) && IsLast(hist, k) && hist[k].ip != u.ip
    ensures var table' := table[s := Entry(true, u.ip, u.mac, |hist| + 1)]; InTable(table', k) || AllNewer(table', k)
  {
    var table' := table[s := Entry(true, u.ip, u.mac, |hist| + 1)];
    if InTable(table, k) {
      var i :| 0 <= i < |table| && table[i].valid && table[i].stamp == k + 1;
      if i != s {
        assert table'[i].stamp == k + 1;
      } else {
        Evicted(table, hist, u, s);
      }
    } else {
      assert AllNewer(table, k);
    }
  }

  lemma Evicted(table: seq<Entry>, hist: seq<Update>, u: Update, s: nat)
    requires Valid(table, hist) && Chosen(table, u.ip, s) && table[s].valid && table[s].ip != u.ip
    ensures AllNewer(table[s := Entry(true, u.ip, u.mac, |hist| + 1)], table[s].stamp - 1)
  {
    hide Kept;
    hide IsLast;
    forall i | 0 <= i < |table| && i != s ensures table[i].valid && table[s].stamp < table[i].stamp {
      assert table[s].stamp <= table[i].stamp;
      var a, b := if i < s then i else s, if i < s then s else i;
      assert table[a].ip != table[b].ip;
    }
  }

  // ---------- the table itself ----------

  class Arp {
    const table: array<Entry>
    var stamp: nat
    ghost var hist: seq<Update>

    ghost predicate Ok()
      reads this, table
    {
      table.Length == CAP && Valid(table[..], hist) && stamp == |hist| + 1
    }

    /** clks_net_arp_table_reset */
    constructor ()
      ensures Ok() && hist == [] && fresh(table)
    {
      table := new Entry[CAP](_ => Entry(false, 0, [0, 0, 0, 0, 0, 0], 0));
      stamp, hist := 1, [];
      new;
      assert forall i :: 0 <= i < CAP ==> !table[..][i].valid;
    }

    /** clks_net_arp_upsert: anything but a zero address or an invalid MAC becomes the newest update. */
    method Upsert(ip: nat, mac: Mac)
      requires Ok()
      modifies this, table
      ensures Ok() && hist == if MacInvalid(mac) || ip == 0 then old(hist) else old(hist) + [Update(ip, mac)]
    {
      var invalid := IsMacInvalid(mac);
      if invalid || ip == 0 {
        return;
      }
      var s := ChooseSlot(ip);
      Store(s, ip, mac);
    }

    /** The scan of clks_net_arp_upsert. */
    method ChooseSlot(ip: nat) returns (s: nat)
      requires table.Length == CAP
      ensures Chosen(table[..], ip, s)
    {
      hide Chosen;
      var free: nat, oldest: nat, oldestStamp := CAP, 0, table[0].stamp;
      for i := 0 to CAP
        invariant free <= CAP && oldest < CAP
        invariant forall j :: 0 <= j < i ==> !(table[j].valid && table[j].ip == ip)
        invariant if free == CAP then forall j :: 0 <= j < i ==> table[j].valid else !table[free].valid
        invariant oldestStamp == table[oldest].stamp && forall j :: 0 <= j < i ==> oldestStamp <= table[j].stamp
      {
        if table[i].valid && table[i].ip == ip {
          ChosenFound(table[..], ip, i);
          return i;
        }
        if !table[i].valid && free == CAP {
          free := i;
        }
        if table[i].stamp < oldestStamp {
          oldest, oldestStamp := i, table[i].stamp;
        }
      }
      if free == CAP {
        free := oldest;
      }
      ChosenNew(table[..], ip, free);
      return free;
    }

    /** Writes the update into the slot chosen for it. */
    method Store(s: nat, ip: nat, mac: Mac)
      requires Ok() && Chosen(table[..], ip, s)
      modifies this, table
      ensures Ok() && hist == old(hist) + [Update(ip, mac)]
    {
      FaithfulAfter(table[..], hist, Update(ip, mac), s);
      KeptAfter(table[..], hist, Update(ip, mac), s);
      hide Faithful;
      hide DistinctIps;
      hide Kept;
      hide Chosen;
      ghost var was := table[..];
      table[s] := Entry(true, ip, mac, stamp);
      assert table[..] == was[s := Entry(true, ip, mac, stamp)];
      stamp := stamp + 1;
      hist := hist + [Update(ip, mac)];
    }

    /**
     clks_net_arp_lookup: an address is known exactly if fewer than sixteen other addresses were updated since it was,
     and then with the MAC it was last updated to.
     */
    method Lookup(ip: nat) returns (r: Answer)
      requires Ok()
      ensures r.Known? ==> exists k: nat :: Remembered(hist, k) && hist[k] == Update(ip, r.mac)
      ensures r.Unknown? ==> forall k: nat :: Remembered(hist, k) ==> hist[k].ip != ip
    {
      hide Valid;
      hide Remembered;
      for i := 0 to CAP
        invariant forall j :: 0 <= j < i ==> !(table[j].valid && table[j].ip == ip)
      {
        if table[i].valid && table[i].ip == ip {
          FaithfulAt(table[..], hist, i);
          InTableRemembered(table[..], hist, i);
          return Known(table[i].mac);
        }
      }
      NotThere(table[..], hist, ip);
      return Unknown;
    }
  }

  lemma NotThere(table: seq<Entry>, hist: seq<Update>, ip: nat)
    requires Valid(table, hist) && forall j :: 0 <= j < |table| ==> !(table[j].valid && table[j].ip == ip)
    ensures forall k: nat :: Remembered(hist, k) ==> hist[k].ip != ip
  {
    forall k: nat | Remembered(hist, k) ensures hist[k].ip != ip {
      if !InTable(table, k) {
        ForgottenByRights(table, hist, k);
      }
    }
  }
}
