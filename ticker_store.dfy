/** The watched symbol list and its backing file "tickers" (src/lib.rs:138-209). The file is
    an abstract state; serialisation to and from JSON is reduced to that state. */
module TickerStore {
  import opened Wrappers

  /** The backing file: missing, holding a well-formed `{"tickers": [...]}` record, or
      holding something `serde_json` cannot read as one. */
  datatype FileState = Absent | Wellformed(tickers: seq<string>) | Malformed

  /** The list `read_tickers` obtains from a present file: the stored symbols, in order and
      with any duplicates, or the empty list (`unwrap_or_default`) when the content is
      malformed. */
  function Loaded(file: FileState): (t: seq<string>)
    requires file != Absent
    ensures file.Wellformed? ==> t == file.tickers
    ensures file.Malformed? ==> t == []
  {
    if file.Wellformed? then file.tickers else []
  }

  /** The `Tickers` record: an ordered list of symbols the poll loop fetches. */
  class Tickers {
    var tickers: seq<string>

    /** `Tickers::default()`: the empty list. */
    constructor Default()
      ensures tickers == []
    {
      tickers := [];
    }

    /** `Tickers::new(t)`: exactly the given list. */
    constructor (t: seq<string>)
      ensures tickers == t
    {
      tickers := t;
    }

    /** `set_tickers`: replaces the whole list, order and duplicates kept. */
    method SetTickers(t: seq<string>)
      modifies this
      ensures tickers == t
    {
      tickers := t;
    }

    /** `get_tickers`: the current list, unchanged. */
    method GetTickers() returns (t: seq<string>)
      ensures t == tickers
    {
      t := tickers;
    }

    /** `dump_to_file`: the file afterwards holds exactly this list. */
    method DumpToFile(store: Store)
      modifies store`file
      ensures store.file == Wellformed(tickers)
    {
      store.file := Wellformed(tickers);
    }

    /** `Tickers::init`: an absent file is first created holding the empty list and then
        read, giving []; a present file is read (a malformed one also gives []). */
    static method Init(store: Store) returns (t: Tickers)
      modifies store`file
      ensures fresh(t)
      ensures old(store.file) == Absent ==> store.file == Wellformed([]) && t.tickers == []
      ensures old(store.file) != Absent ==> store.file == old(store.file) && t.tickers == Loaded(store.file)
    {
      if store.file == Absent {
        store.CreateTickers();
        t := store.ReadTickers();
      } else {
        t := store.ReadTickers();
      }
    }
  }

  /** The process's view of the ticker file: the file itself and the last modification
      fingerprint `check_tickers` observed (the static `LAST_MODIFIED`, initially 0). */
  class Store {
    var file: FileState
    var lastModified: nat

    constructor (initial: FileState)
      ensures file == initial && lastModified == 0
    {
      file := initial;
      lastModified := 0;
    }

    /** `read_tickers`: load the list from the file; reading a missing file panics. */
    method ReadTickers() returns (t: Tickers)
      requires file != Absent
      ensures fresh(t) && t.tickers == Loaded(file)
    {
      t := new Tickers(Loaded(file));
    }

    /** `create_tickers`: write the default (empty) record. */
    method CreateTickers()
      modifies this`file
      ensures file == Wellformed([])
    {
      var empty := new Tickers.Default();
      empty.DumpToFile(this);
    }

    /** `check_tickers`: when the observed fingerprint differs from the stored one, store it
        and reload the list; otherwise report no change. Reading the metadata of a missing
        file panics. */
    method CheckTickers(modified: nat) returns (reload: Option<Tickers>)
      requires file != Absent
      modifies this`lastModified
      ensures reload.Some? <==> modified != old(lastModified)
      ensures lastModified == modified
      ensures reload.Some? ==> fresh(reload.value) && reload.value.tickers == Loaded(file)
    {
      if lastModified != modified {
        lastModified := modified;
        var t := ReadTickers();
        reload := Some(t);
      } else {
        reload := None;
      }
    }
  }

  /** Two checks with the same fingerprint: the second reports no change. */
  method CheckTwice(store: Store, modified: nat) returns (first: Option<Tickers>, second: Option<Tickers>)
    requires store.file != Absent
    modifies store`lastModified
    ensures first.Some? <==> modified != old(store.lastModified)
    ensures second.None?
    ensures store.lastModified == modified
  {
    first := store.CheckTickers(modified);
    second := store.CheckTickers(modified);
  }

  /** The first check of a fresh process with fingerprint 0 reports no change, because the
      stored fingerprint starts at 0. */
  method FirstCheckAtZero(file: FileState) returns (reload: Option<Tickers>)
    requires file != Absent
    ensures reload.None?
  {
    var store := new Store(file);
    reload := store.CheckTickers(0);
  }

  /** Persisting a list and loading it back gives the same list, in the same order. */
  method PersistThenLoad(store: Store, t: Tickers) returns (loaded: Tickers)
    modifies store`file
    ensures store.file == Wellformed(t.tickers)
    ensures fresh(loaded) && loaded.tickers == t.tickers
  {
    t.DumpToFile(store);
    loaded := store.ReadTickers();
  }
}
