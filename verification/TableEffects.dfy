/** What each operation of the table does to every station and every key. */
module TableEffects {
  import opened Address
  import opened StationTable

  /** What an insertion that goes through does to one of the indices: the key is
      there afterwards, and every key that was there leads where it led. */
  predicate Gained<K, S(==)>(m: map<K, S>, m': map<K, S>, k: K, w: S) {
    && m'.Keys == m.Keys + {k}
    && (forall j :: j in m ==> m'[j] == m[j])
    && (k !in m ==> m'[k] == w)
  }

  /** The key is gone, and every other key leads where it led. */
  predicate Lost<K, S(==)>(m: map<K, S>, m': map<K, S>, k: K) {
    m'.Keys == m.Keys - {k} && forall j :: j in m' ==> m'[j] == m[j]
  }

  /** A new station is taken up exactly if it is not disconnected and its hostname
      is not in the table. Only then do the indices gain its addresses, and only
      as far as these are new, and only then is one event reported. */
  lemma InsertEffect<S>(t: Table<S>, w: S, a: NodeAddresses, s: Status, x: S)
    requires Known(t) && w !in t.status
    ensures var t' := Insert(t, w, a, s);
            && t'.addresses == t.addresses[w := a] && t'.status == t.status[w := s]
            && (if s != Disconnected && a.hostname !in t.byHostname then
                  && Gained(t.byHostname, t'.byHostname, a.hostname, w)
                  && Gained(t.byMac, t'.byMac, a.mac, w) && Gained(t.byIp, t'.byIp, a.ip, w)
                  && KindsOf(t'.log, x) == KindsOf(t.log, x) + (if x == w then [Insertion] else [])
                else
                  t'.byHostname == t.byHostname && t'.byMac == t.byMac && t'.byIp == t.byIp && t'.log == t.log)
  {
    KindsAppend(t.log, Event(Insertion, w), x);
  }

  /** A removal takes the addresses of its station out of the indices, whoever
      was under them, disconnects it, and reports it; nothing else changes. */
  lemma RemoveEffect<S>(t: Table<S>, w: S, x: S)
    requires Known(t) && w in t.status && x in t.status
    ensures var t' := Remove(t, w);
            && t'.addresses == t.addresses && t'.status.Keys == t.status.Keys
            && Lost(t.byMac, t'.byMac, t.addresses[w].mac) && Lost(t.byIp, t'.byIp, t.addresses[w].ip)
            && Lost(t.byHostname, t'.byHostname, t.addresses[w].hostname)
            && t'.status[x] == (if x == w then Disconnected else t.status[x])
            && KindsOf(t'.log, x) == KindsOf(t.log, x) + (if x == w then [Removal] else [])
  {
    KindsAppend(t.log, Event(Removal, w), x);
  }

  /** The hostname index leads to `w`, and `w` sleeps. */
  predicate Wakes<S(==)>(t: Table<S>, hostname: string, w: S) {
    hostname in t.byHostname && t.byHostname[hostname] == w && w in t.status && t.status[w] == Asleep
  }

  /** Waking up makes the station under the hostname awake if it sleeps, and then
      reports one change; it does nothing to any other station, nor to the indices. */
  lemma WakeEffect<S>(t: Table<S>, hostname: string, w: S)
    requires Known(t) && w in t.status
    ensures var t' := WakeUp(t, hostname);
            && t'.addresses == t.addresses && t'.status.Keys == t.status.Keys
            && t'.byMac == t.byMac && t'.byIp == t.byIp && t'.byHostname == t.byHostname
            && t'.status[w] == (if Wakes(t, hostname, w) then Awaken else t.status[w])
            && KindsOf(t'.log, w) == KindsOf(t.log, w) + (if Wakes(t, hostname, w) then [ChangedStatus] else [])
    ensures WakeUp(t, hostname) != t <==> hostname in t.byHostname && Wakes(t, hostname, t.byHostname[hostname])
  {
    if hostname in t.byHostname {
      KindsAppend(t.log, Event(ChangedStatus, t.byHostname[hostname]), w);
    }
  }
}
