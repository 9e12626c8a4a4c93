/**
 * The storage use case of internal/usecase/storage/usecase.go: it is built
 * from a list of options, and it classifies the errors of the storage
 * behind it into its own sentinels.
 *
 * The storage is a Go interface; here it is a record of three functions,
 * each giving the answer the storage would give. The logger is only
 * written to, so all that matters of it is whether one was supplied.
 */
module UseCase {
  import opened Wrappers
  import opened Errors

  /** A storage as the use case sees it (the `Storage` interface). */
  datatype Storage = Storage(
    put: (string, string, int) -> Option<Error>,
    fetch: string -> Fetch,
    remove: string -> Option<Error>)

  /** What the options fill in; the defaults are a nil logger and a nil storage. */
  datatype Settings = Settings(hasLogger: bool, storage: Option<Storage>)

  const DefaultSettings := Settings(false, None)

  /** An option is a function that edits the settings or reports an error; `None` is a nil option. */
  type Configure = Settings -> (Settings, Option<Error>)

  /** `WithLogger(l)`: records whether `l` is a non-nil logger. */
  function WithLogger(present: bool): (o: Configure)
    ensures forall s :: o(s) == (s.(hasLogger := present), None)
  {
    (s: Settings) => (s.(hasLogger := present), None)
  }

  /** `WithStorage(st)`. */
  function WithStorage(st: Storage): (o: Configure)
    ensures forall s :: o(s) == (s.(storage := Some(st)), None)
  {
    (s: Settings) => (s.(storage := Some(st)), None)
  }

  /** Where the option loop stands: still going, or stopped by an option's error. */
  datatype Progress = Going(settings: Settings) | Stopped(err: Error)

  /** The option loop as a fold over the options, oldest first. */
  function RunOptions(opts: seq<Option<Configure>>): Progress
    decreases |opts|
  {
    if |opts| == 0 then Going(DefaultSettings)
    else
      match RunOptions(opts[..|opts| - 1])
      case Stopped(e) => Stopped(e)
      case Going(s) =>
        match opts[|opts| - 1]
        case None => Going(s)
        case Some(f) =>
          var (s', err) := f(s);
          if err.Some? then Stopped(err.value) else Going(s')
  }

  datatype UseCase = UseCase(hasLogger: bool, storage: Option<Storage>)

  datatype Built = Built(uc: UseCase) | Refused(err: Error)

  /** `validate`: a logger is required; the storage is not checked. */
  function Validate(s: Settings): (r: Option<Error>)
    ensures r.None? <==> s.hasLogger
    ensures r.Some? ==> r.value == Sentinel(UcBadLogger)
  {
    if !s.hasLogger then Some(Sentinel(UcBadLogger)) else None
  }

  /**
   * `New(options...)`: runs the options in order, skipping nil ones and
   * returning the first error an option reports; then validates.
   */
  method New(opts: seq<Option<Configure>>) returns (r: Built)
    ensures RunOptions(opts).Stopped? ==> r == Refused(RunOptions(opts).err)
    ensures RunOptions(opts).Going? ==>
              var s := RunOptions(opts).settings;
              r == if s.hasLogger then Built(UseCase(true, s.storage)) else Refused(Sentinel(UcBadLogger))
  {
    var s := DefaultSettings;
    var i := 0;
    while i < |opts|
      invariant 0 <= i <= |opts|
      invariant RunOptions(opts[..i]) == Going(s)
    {
      assert opts[..i + 1][..i] == opts[..i];
      if opts[i].Some? {
        var (s', err) := opts[i].value(s);
        if err.Some? {
          StopsForGood(opts, i + 1);
          return Refused(err.value);
        }
        s := s';
      }
      i := i + 1;
    }
    assert opts[..i] == opts;
    var v := Validate(s);
    if v.Some? {
      return Refused(v.value);
    }
    return Built(UseCase(s.hasLogger, s.storage));
  }

  /** Once an option has failed, later options are not run. */
  lemma {:induction false} StopsForGood(opts: seq<Option<Configure>>, k: nat)
    requires k <= |opts|
    requires RunOptions(opts[..k]).Stopped?
    ensures RunOptions(opts) == RunOptions(opts[..k])
    decreases |opts| - k
  {
    if k < |opts| {
      assert opts[..k + 1][..k] == opts[..k];
      StopsForGood(opts, k + 1);
    } else {
      assert opts[..k] == opts;
    }
  }

  /** A nil option changes nothing. */
  lemma NilOptionSkipped(opts: seq<Option<Configure>>)
    ensures RunOptions(opts + [None]) == RunOptions(opts)
  {
    assert (opts + [None])[..|opts|] == opts;
  }

  /** With a logger and a storage given, `New` builds a use case over that storage. */
  method NewWithLoggerAndStorage(st: Storage) returns (r: Built)
    ensures r == Built(UseCase(true, Some(st)))
  {
    var opts: seq<Option<Configure>> := [Some(WithLogger(true)), Some(WithStorage(st))];
    assert opts[..1] == [Some(WithLogger(true))];
    assert |opts[..1][..0]| == 0;
    assert RunOptions(opts[..1]) == Going(Settings(true, None));
    assert opts[..2] == opts;
    r := New(opts);
  }

  // ---------------------------------------------------------------------
  // Operations

  /** How `UseCase.Set` reports the storage's error: as `ErrSet`, the storage's text kept in front. */
  function SetAnswer(err: Option<Error>): (r: Option<Error>)
    ensures r.None? <==> err.None?
    ensures r.Some? ==> Is(r, UcSet) && err.value.message <= r.value.message
  {
    if err.Some? then Some(Wrap(UcSet, err.value.message)) else None
  }

  /**
   * How `UseCase.Get` reports the storage's answer: the adapters'
   * `ErrNotFound` becomes the use case's `ErrNotFound`, any other error
   * becomes `ErrGet`, and either way the value is dropped; success passes
   * the value through.
   */
  function GetAnswer(f: Fetch): (r: Fetch)
    ensures r.err.None? <==> f.err.None?
    ensures r.err.None? ==> r.value == f.value
    ensures r.err.Some? ==> r.value == "" && f.err.value.message <= r.err.value.message
    ensures Is(r.err, UcNotFound) <==> Is(f.err, AdaptersNotFound)
    ensures Is(r.err, UcGet) <==> f.err.Some? && !Is(f.err, AdaptersNotFound)
  {
    if Is(f.err, AdaptersNotFound) then Fetch("", Some(Wrap(UcNotFound, f.err.value.message)))
    else if f.err.Some? then Fetch("", Some(Wrap(UcGet, f.err.value.message)))
    else Fetch(f.value, None)
  }

  /** How `UseCase.Delete` reports the storage's error: as `ErrDelete`. */
  function DeleteAnswer(err: Option<Error>): (r: Option<Error>)
    ensures r.None? <==> err.None?
    ensures r.Some? ==> Is(r, UcDelete) && err.value.message <= r.value.message
  {
    if err.Some? then Some(Wrap(UcDelete, err.value.message)) else None
  }

  /**
   * `UseCase.Set`: no error exactly when the storage reports none; a
   * storage error comes back as `ErrSet` wrapping the storage's text. A nil
   * storage would panic; that is excluded.
   */
  function Set(uc: UseCase, key: string, value: string, ttl: int): (r: Option<Error>)
    requires uc.storage.Some?
    ensures var err := uc.storage.value.put(key, value, ttl);
            && (r.None? <==> err.None?)
            && (r.Some? ==> r.value == Wrap(UcSet, err.value.message))
  {
    SetAnswer(uc.storage.value.put(key, value, ttl))
  }

  /**
   * `UseCase.Get`: the storage's value while it reports no error; its
   * `ErrNotFound` comes back as the use case's `ErrNotFound`, and any other
   * error as `ErrGet`, each wrapping the storage's text with an empty value.
   */
  function Get(uc: UseCase, key: string): (r: Fetch)
    requires uc.storage.Some?
    ensures var f := uc.storage.value.fetch(key);
            && (r.err.None? <==> f.err.None?)
            && (r.err.None? ==> r.value == f.value)
            && (Is(f.err, AdaptersNotFound) ==> r == Fetch("", Some(Wrap(UcNotFound, f.err.value.message))))
            && (f.err.Some? && !Is(f.err, AdaptersNotFound) ==> r == Fetch("", Some(Wrap(UcGet, f.err.value.message))))
  {
    GetAnswer(uc.storage.value.fetch(key))
  }

  /** `UseCase.Delete`: no error exactly when the storage reports none; otherwise `ErrDelete` wrapping it. */
  function Delete(uc: UseCase, key: string): (r: Option<Error>)
    requires uc.storage.Some?
    ensures var err := uc.storage.value.remove(key);
            && (r.None? <==> err.None?)
            && (r.Some? ==> r.value == Wrap(UcDelete, err.value.message))
  {
    DeleteAnswer(uc.storage.value.remove(key))
  }
}
