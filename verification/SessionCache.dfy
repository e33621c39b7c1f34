/** Cache and LoadCache of internal/dispatcher/dispatcher.go on the Signers of all
    sessions: what is stored, and what comes back. */
module SessionCache {
  import opened Primitives
  import opened Wire
  import opened GoTime
  import S = SignerSpec
  import Sync = Synchronisation

  datatype CacheEntry = CacheEntry(createdAt: Time, domain: int, sessionInfo: bytes)

  /** The readings of the clock for one entry: in ExportSessionInfo, and for CreatedAt. */
  type Readings = (Time, Time)
  type Signers = map<int, S.SignerState>

  function EntryOf(d: int, s: S.SignerState, at: Readings): CacheEntry {
    CacheEntry(at.1, d, s.suite.codec.marshal(S.ExportedInfo(s, at.0)))
  }

  /** The entries of Cache, for sessions visited in the order of `domains`. */
  function CacheOf(signers: Signers, domains: seq<int>, times: seq<Readings>): seq<CacheEntry>
    requires |times| == |domains|
  {
    if domains == [] then []
    else
      var n := |domains| - 1;
      CacheOf(signers, domains[..n], times[..n])
      + if domains[n] in signers then [EntryOf(domains[n], signers[domains[n]], times[n])] else []
  }

  /** The Signers LoadCache installs, unless some entry cannot be imported. */
  function LoadOf(key: ClientKey, vin: bytes, entries: seq<CacheEntry>, now: Time): Option<Signers> {
    if entries == [] then Some(map[])
    else
      var e := entries[|entries| - 1];
      match LoadOf(key, vin, entries[..|entries| - 1], now)
      case None => None
      case Some(signers) =>
        match S.ImportSessionInfo(key, Some(vin), e.sessionInfo, e.createdAt, now)
        case Err(_) => None
        case Ok(s) => Some(signers[e.domain := s])
  }

  /** Storing entries outside the process keeps the wall clock's reading only. */
  function Store(entries: seq<CacheEntry>): seq<CacheEntry> {
    if entries == [] then []
    else
      var e := entries[|entries| - 1];
      Store(entries[..|entries| - 1]) + [e.(createdAt := Sync.Stored(e.createdAt))]
  }

  /** Importing the Signer's own session info with this key leads back to its session key. */
  ghost predicate Restorable(key: ClientKey, vin: bytes, s: S.SignerState) {
    && key.exchange(s.verifierPublic) == Some(s.suite) && key.codec == s.suite.codec
    && key.codec.Lawful() && s.name == Some(vin) && |vin| <= 255
  }

  /** What one failed import does: nothing is loaded. */
  lemma {:induction false} OneBadEntrySpoilsAll(key: ClientKey, vin: bytes, entries: seq<CacheEntry>, now: Time)
    ensures LoadOf(key, vin, entries, now).Some?
            <==> forall e | e in entries :: S.ImportSessionInfo(key, Some(vin), e.sessionInfo, e.createdAt, now).Ok?
  {
    if entries != [] {
      var n := |entries| - 1;
      OneBadEntrySpoilsAll(key, vin, entries[..n], now);
      assert forall e | e in entries :: e in entries[..n] || e == entries[n];
      assert entries[n] in entries && forall e | e in entries[..n] :: e in entries;
    }
  }

  lemma LoadOneMore(key: ClientKey, vin: bytes, entries: seq<CacheEntry>, e: CacheEntry, now: Time)
    requires LoadOf(key, vin, entries, now).Some?
    requires S.ImportSessionInfo(key, Some(vin), e.sessionInfo, e.createdAt, now).Ok?
    ensures LoadOf(key, vin, entries + [e], now)
         == Some(LoadOf(key, vin, entries, now).value[
                   e.domain := S.ImportSessionInfo(key, Some(vin), e.sessionInfo, e.createdAt, now).value])
  {
    assert (entries + [e])[..|entries|] == entries;
  }

  function StoredReadings(times: seq<Readings>): seq<Readings> {
    seq(|times|, i requires 0 <= i < |times| => (times[i].0, Sync.Stored(times[i].1)))
  }

  /** Stored entries are those of a clock without monotonic readings. */
  lemma {:induction false} StoreIsCache(signers: Signers, domains: seq<int>, times: seq<Readings>)
    requires |times| == |domains|
    ensures Store(CacheOf(signers, domains, times)) == CacheOf(signers, domains, StoredReadings(times))
  {
    if domains != [] {
      var n := |domains| - 1;
      StoreIsCache(signers, domains[..n], times[..n]);
      assert StoredReadings(times)[..n] == StoredReadings(times[..n]);
      var rest := CacheOf(signers, domains[..n], times[..n]);
      if domains[n] in signers {
        var e := EntryOf(domains[n], signers[domains[n]], times[n]);
        assert CacheOf(signers, domains, times)[..|rest|] == rest;
        assert Store(CacheOf(signers, domains, times)) == Store(rest) + [e.(createdAt := Sync.Stored(e.createdAt))];
      } else {
        assert CacheOf(signers, domains, times) == rest;
      }
    }
  }

  /** The sessions of `domains` that had a Signer, and no others, have one again: with its
      counter, epoch and keys, and a clock taken from the cache entry. */
  ghost predicate Restored(loaded: Signers, signers: Signers, domains: seq<int>, times: seq<Readings>)
    requires |times| == |domains|
  {
    && (forall d :: d in loaded <==> d in signers && d in domains)
    && (forall i | 0 <= i < |domains| && domains[i] in signers ::
          loaded[domains[i]] == Sync.Reload(signers[domains[i]], times[i].0, times[i].1))
  }

  lemma RestoredOneMore(loaded: Signers, signers: Signers, domains: seq<int>, times: seq<Readings>)
    requires |times| == |domains| > 0
    requires forall i, j | 0 <= i < j < |domains| :: domains[i] != domains[j]
    requires Restored(loaded, signers, domains[..|domains| - 1], times[..|domains| - 1])
    ensures var d, at := domains[|domains| - 1], times[|domains| - 1];
            var loaded' := if d in signers then loaded[d := Sync.Reload(signers[d], at.0, at.1)] else loaded;
            Restored(loaded', signers, domains, times)
  {
    assert domains == domains[..|domains| - 1] + [domains[|domains| - 1]];
  }

  /** Loading what was cached for a list of domains. The entries may have been kept in
      memory; StoreIsCache covers those that were stored. */
  lemma {:induction false} CacheRoundTrip(key: ClientKey, vin: bytes, signers: Signers, domains: seq<int>,
                                          times: seq<Readings>, now: Time)
    requires |times| == |domains|
    requires forall i, j | 0 <= i < j < |domains| :: domains[i] != domains[j]
    requires forall d | d in signers :: Restorable(key, vin, signers[d])
    ensures LoadOf(key, vin, CacheOf(signers, domains, times), now).Some?
    ensures Restored(LoadOf(key, vin, CacheOf(signers, domains, times), now).value, signers, domains, times)
  {
    if domains != [] {
      var n := |domains| - 1;
      var rest := CacheOf(signers, domains[..n], times[..n]);
      CacheRoundTrip(key, vin, signers, domains[..n], times[..n], now);
      RestoredOneMore(LoadOf(key, vin, rest, now).value, signers, domains, times);
      if domains[n] in signers {
        Sync.ReloadIsImport(signers[domains[n]], key, times[n].0, times[n].1, now);
        LoadOneMore(key, vin, rest, EntryOf(domains[n], signers[domains[n]], times[n]), now);
      } else {
        assert CacheOf(signers, domains, times) == rest;
      }
    }
  }
}
