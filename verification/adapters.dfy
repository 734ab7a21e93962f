/**
 * The adapter registries of src/backend/adapters.py: an insertion-ordered
 * map from adapter key to description with the semantics of a Python
 * `dict`. Assigning a new key appends it to the key order; assigning an
 * existing key replaces its description and keeps its position.
 */
module Adapters {
  import opened Wrappers

  /**
   * `order` is the dict's key order and `adapters` its contents. A registry
   * is well formed (`Valid`) when `order` lists every key once.
   */
  datatype AdapterRegistry = AdapterRegistry(kind: string, order: seq<string>, adapters: map<string, string>)

  predicate NoDuplicates(ks: seq<string>) {
    forall i, j :: 0 <= i < j < |ks| ==> ks[i] != ks[j]
  }

  predicate Valid(reg: AdapterRegistry) {
    && NoDuplicates(reg.order)
    && (forall k :: k in reg.order ==> k in reg.adapters)
    && (forall k :: k in reg.adapters ==> k in reg.order)
  }

  /** The description registered under `key`, if any. */
  function Description(reg: AdapterRegistry, key: string): Option<string> {
    if key in reg.adapters then Some(reg.adapters[key]) else None
  }

  /** A registry of the given kind with nothing registered. */
  function New(kind: string): (reg: AdapterRegistry)
    ensures Valid(reg)
    ensures reg.kind == kind
    ensures List(reg) == []
    ensures forall k :: Description(reg, k) == None
  {
    AdapterRegistry(kind, [], map[])
  }

  /** `list()`: every registered key exactly once, in key order. */
  function List(reg: AdapterRegistry): (ks: seq<string>)
    requires Valid(reg)
    ensures NoDuplicates(ks)
    ensures forall k :: k in ks <==> Description(reg, k).Some?
  {
    reg.order
  }

  /** `register(key, description)`: the dict assignment `adapters[key] = description`. */
  function Register(reg: AdapterRegistry, key: string, description: string): (r: AdapterRegistry)
    requires Valid(reg)
    ensures Valid(r)
    ensures r.kind == reg.kind
    ensures Description(r, key) == Some(description)
    ensures forall k :: k != key ==> Description(r, k) == Description(reg, k)
    ensures key in List(reg) ==> List(r) == List(reg)
    ensures key !in List(reg) ==> List(r) == List(reg) + [key]
  {
    var order := if key in reg.adapters then reg.order else reg.order + [key];
    AdapterRegistry(reg.kind, order, reg.adapters[key := description])
  }

  /** Registering the same description twice is the same as registering it once. */
  lemma RegisterIdempotent(reg: AdapterRegistry, key: string, description: string)
    requires Valid(reg)
    ensures Register(Register(reg, key, description), key, description) == Register(reg, key, description)
  {
  }

  /** Of two registrations of one key only the later description survives. */
  lemma RegisterLastWriteWins(reg: AdapterRegistry, key: string, first: string, second: string)
    requires Valid(reg)
    ensures Register(Register(reg, key, first), key, second) == Register(reg, key, second)
  {
  }

  // ---------------------------------------------------------------------
  // Registries built from a history of registrations
  // ---------------------------------------------------------------------

  /** One `register(key, description)` call. */
  datatype Registration = Registration(key: string, description: string)

  /** Apply the registrations of `h` to `reg`, in order. */
  function RegisterAll(reg: AdapterRegistry, h: seq<Registration>): (r: AdapterRegistry)
    requires Valid(reg)
    ensures Valid(r)
    ensures r.kind == reg.kind
    decreases |h|
  {
    if |h| == 0 then reg
    else
      var last := h[|h| - 1];
      Register(RegisterAll(reg, h[..|h| - 1]), last.key, last.description)
  }

  /** A new registry of kind `kind` after the registrations `h`. */
  function FromHistory(kind: string, h: seq<Registration>): (r: AdapterRegistry)
    ensures Valid(r)
    ensures r.kind == kind
  {
    RegisterAll(New(kind), h)
  }

  /** The keys of `h`, one per registration. */
  function KeysOf(h: seq<Registration>): (ks: seq<string>)
    ensures |ks| == |h|
    ensures forall i :: 0 <= i < |h| ==> ks[i] == h[i].key
  {
    seq(|h|, i requires 0 <= i < |h| => h[i].key)
  }

  /** The position of the first occurrence of `k` in `ks`. */
  function FirstIndex(ks: seq<string>, k: string): (i: nat)
    requires k in ks
    ensures i < |ks| && ks[i] == k
    ensures forall j :: 0 <= j < i ==> ks[j] != k
  {
    if ks[0] == k then 0 else 1 + FirstIndex(ks[1..], k)
  }

  /** Position `i` holds the last registration of its key in `h`. */
  ghost predicate IsLastRegistration(h: seq<Registration>, i: int) {
    0 <= i < |h| && forall j :: i < j < |h| ==> h[j].key != h[i].key
  }

  lemma FirstIndexAppend(ks: seq<string>, x: string, k: string)
    requires k in ks
    ensures FirstIndex(ks + [x], k) == FirstIndex(ks, k)
  {
    var i := FirstIndex(ks, k);
    assert (ks + [x])[i] == k;
  }

  lemma FirstIndexOfNewKey(ks: seq<string>, k: string)
    requires k !in ks
    ensures FirstIndex(ks + [k], k) == |ks|
  {
  }

  /** `list()` of a registry built from `h` holds exactly the keys registered in `h`. */
  lemma {:induction false} HistoryListsRegisteredKeys(kind: string, h: seq<Registration>)
    ensures forall k :: k in List(FromHistory(kind, h)) <==> k in KeysOf(h)
    decreases |h|
  {
    if |h| > 0 {
      var n := |h| - 1;
      HistoryListsRegisteredKeys(kind, h[..n]);
      assert KeysOf(h) == KeysOf(h[..n]) + [h[n].key];
    }
  }

  /** The keys `ks` all occur in `keys` and are ordered by their first occurrence there. */
  ghost predicate OrderedByFirstOccurrence(ks: seq<string>, keys: seq<string>) {
    && (forall k :: k in ks ==> k in keys)
    && (forall i, j :: 0 <= i < j < |ks| ==> FirstIndex(keys, ks[i]) < FirstIndex(keys, ks[j]))
  }

  /** Registering `x` keeps `list()` ordered by first registration. */
  lemma OrderedAfterRegistration(ks: seq<string>, keys: seq<string>, x: string)
    requires OrderedByFirstOccurrence(ks, keys)
    ensures OrderedByFirstOccurrence(ks, keys + [x])
    ensures x !in keys ==> OrderedByFirstOccurrence(ks + [x], keys + [x])
  {
    forall k | k in ks
      ensures FirstIndex(keys + [x], k) == FirstIndex(keys, k)
    {
      FirstIndexAppend(keys, x, k);
    }
    if x !in keys {
      FirstIndexOfNewKey(keys, x);
      var ks' := ks + [x];
      forall i, j | 0 <= i < j < |ks'|
        ensures FirstIndex(keys + [x], ks'[i]) < FirstIndex(keys + [x], ks'[j])
      {
        assert ks'[i] == ks[i];
        if j < |ks| {
          assert ks'[j] == ks[j];
        }
      }
    }
  }

  /** `list()` of a registry built from `h` is ordered by each key's first registration. */
  lemma {:induction false} HistoryListsKeysByFirstRegistration(kind: string, h: seq<Registration>)
    ensures OrderedByFirstOccurrence(List(FromHistory(kind, h)), KeysOf(h))
    decreases |h|
  {
    if |h| > 0 {
      var n := |h| - 1;
      var pre := h[..n];
      HistoryListsKeysByFirstRegistration(kind, pre);
      HistoryListsRegisteredKeys(kind, pre);
      assert KeysOf(h) == KeysOf(pre) + [h[n].key];
      OrderedAfterRegistration(List(FromHistory(kind, pre)), KeysOf(pre), h[n].key);
    }
  }

  /**
   * A registry built from `h` maps every key to the description of its last
   * registration, and knows no key that `h` never registered.
   */
  lemma {:induction false} HistoryLastWriteWins(kind: string, h: seq<Registration>)
    ensures forall i :: IsLastRegistration(h, i) ==> Description(FromHistory(kind, h), h[i].key) == Some(h[i].description)
    ensures forall k :: k !in KeysOf(h) ==> Description(FromHistory(kind, h), k) == None
    decreases |h|
  {
    if |h| > 0 {
      var n := |h| - 1;
      var pre := h[..n];
      HistoryLastWriteWins(kind, pre);
      assert KeysOf(h) == KeysOf(pre) + [h[n].key];
      forall i | IsLastRegistration(h, i)
        ensures Description(FromHistory(kind, h), h[i].key) == Some(h[i].description)
      {
        if i < n {
          assert IsLastRegistration(pre, i);
        }
      }
    }
  }

  // ---------------------------------------------------------------------
  // The three module-level registries
  // ---------------------------------------------------------------------

  /**
   * A history that registers each key once lists its keys in registration
   * order, each with the description it was registered with.
   */
  lemma {:induction false} DistinctHistoryLists(kind: string, h: seq<Registration>)
    requires NoDuplicates(KeysOf(h))
    ensures List(FromHistory(kind, h)) == KeysOf(h)
    ensures forall i :: 0 <= i < |h| ==> Description(FromHistory(kind, h), h[i].key) == Some(h[i].description)
    decreases |h|
  {
    if |h| > 0 {
      var n := |h| - 1;
      var pre := h[..n];
      var keys0 := KeysOf(pre);
      assert KeysOf(h) == keys0 + [h[n].key];
      assert NoDuplicates(keys0);
      DistinctHistoryLists(kind, pre);
      var before := FromHistory(kind, pre);
      assert h[n].key !in List(before) by {
        forall i | 0 <= i < n
          ensures keys0[i] != h[n].key
        {
          assert KeysOf(h)[i] == keys0[i];
        }
      }
      forall i | 0 <= i < n
        ensures Description(FromHistory(kind, h), h[i].key) == Some(h[i].description)
      {
        assert pre[i] == h[i];
        assert KeysOf(h)[i] == h[i].key;
      }
    }
  }

  /** The `register` calls that build the registry of mail providers, in order. */
  const ProviderRegistrations: seq<Registration> :=
    [ Registration("gmail", "Gmail IMAP adapter"),
      Registration("generic_imap", "Fallback IMAP adapter") ]

  /** The `register` calls that build the registry of carrier parsers, in order. */
  const ParserRegistrations: seq<Registration> :=
    [ Registration("DE_DHL", "DHL parser"),
      Registration("DE_HERMES", "Hermes parser"),
      Registration("AMAZON_UK", "Amazon UK parser") ]

  /** The `register` calls that build the registry of delivery targets, in order. */
  const TargetRegistrations: seq<Registration> :=
    [ Registration("google_calendar", "Google Calendar adapter"),
      Registration("calendar_ics", "ICS file writer"),
      Registration("todo_generic", "Generic todo adapter"),
      Registration("ntfy_push", "ntfy push adapter") ]

  lemma ProviderKeys()
    ensures KeysOf(ProviderRegistrations) == ["gmail", "generic_imap"]
    ensures NoDuplicates(KeysOf(ProviderRegistrations))
  {
  }

  lemma ParserKeys()
    ensures KeysOf(ParserRegistrations) == ["DE_DHL", "DE_HERMES", "AMAZON_UK"]
    ensures NoDuplicates(KeysOf(ParserRegistrations))
  {
  }

  lemma TargetKeys()
    ensures KeysOf(TargetRegistrations) == ["google_calendar", "calendar_ics", "todo_generic", "ntfy_push"]
    ensures NoDuplicates(KeysOf(TargetRegistrations))
  {
  }

  /** The registry of mail providers. */
  function ProviderRegistry(): (reg: AdapterRegistry)
    ensures Valid(reg) && reg.kind == "mail_provider"
    ensures List(reg) == ["gmail", "generic_imap"]
    ensures Description(reg, "gmail") == Some("Gmail IMAP adapter")
    ensures Description(reg, "generic_imap") == Some("Fallback IMAP adapter")
  {
    var h := ProviderRegistrations;
    ProviderKeys();
    DistinctHistoryLists("mail_provider", h);
    assert h[0].key == "gmail" && h[1].key == "generic_imap";
    FromHistory("mail_provider", h)
  }

  /** The registry of carrier parsers. */
  function ParserRegistry(): (reg: AdapterRegistry)
    ensures Valid(reg) && reg.kind == "parser"
    ensures List(reg) == ["DE_DHL", "DE_HERMES", "AMAZON_UK"]
    ensures Description(reg, "DE_DHL") == Some("DHL parser")
    ensures Description(reg, "DE_HERMES") == Some("Hermes parser")
    ensures Description(reg, "AMAZON_UK") == Some("Amazon UK parser")
  {
    var h := ParserRegistrations;
    ParserKeys();
    DistinctHistoryLists("parser", h);
    assert h[0].key == "DE_DHL" && h[1].key == "DE_HERMES" && h[2].key == "AMAZON_UK";
    FromHistory("parser", h)
  }

  /** The registry of delivery targets. */
  function TargetRegistry(): (reg: AdapterRegistry)
    ensures Valid(reg) && reg.kind == "target"
    ensures List(reg) == ["google_calendar", "calendar_ics", "todo_generic", "ntfy_push"]
    ensures Description(reg, "google_calendar") == Some("Google Calendar adapter")
    ensures Description(reg, "calendar_ics") == Some("ICS file writer")
    ensures Description(reg, "todo_generic") == Some("Generic todo adapter")
    ensures Description(reg, "ntfy_push") == Some("ntfy push adapter")
  {
    var h := TargetRegistrations;
    TargetKeys();
    DistinctHistoryLists("target", h);
    assert h[0].key == "google_calendar" && h[1].key == "calendar_ics";
    assert h[2].key == "todo_generic" && h[3].key == "ntfy_push";
    FromHistory("target", h)
  }
}
