/**
 Configuration: every section fills in its own unset fields in a loop, parents before the sections
 they create; loading applies the defaults, then the given settings, then the defaults again, and
 validates.
 */
module Config {
  import opened Wrappers

  const SECOND := 1_000_000_000

  // -------------------------------------------------------- configurations as values

  datatype LogValue = LogValue(level: string)
  datatype TimeoutValue = TimeoutValue(read: int, write: int)
  datatype TelemetryValue = TelemetryValue(enable: bool, addr: string, path: string, timeout: Option<TimeoutValue>)
  datatype KeyValue = KeyValue(format: string, path: string)
  datatype FuseValue = FuseValue(key: Option<KeyValue>, allowOther: bool, debug: bool)
  datatype Value = Value(log: Option<LogValue>, telemetry: Option<TelemetryValue>, fuse: Option<FuseValue>, grace: int)

  const NO_LOG := LogValue("")
  const NO_TIMEOUT := TimeoutValue(0, 0)
  const NO_TELEMETRY := TelemetryValue(false, "", "", None)
  const NO_KEY := KeyValue("", "")
  const NO_FUSE := FuseValue(None, false, false)
  const EMPTY := Value(None, None, None, 0)

  function Or<T>(x: Option<T>, default: T): T {
    if x.Some? then x.value else default
  }

  function OrText(s: string, default: string): string {
    if s == "" then default else s
  }

  function DefaultLog(v: LogValue): LogValue { LogValue(OrText(v.level, "info")) }

  function DefaultTimeout(v: TimeoutValue): TimeoutValue {
    TimeoutValue(if v.read <= 0 then 5 * SECOND else v.read, if v.write <= 0 then 5 * SECOND else v.write)
  }

  function DefaultTelemetry(v: TelemetryValue): TelemetryValue {
    TelemetryValue(v.enable, OrText(v.addr, "127.0.0.1:4280"), OrText(v.path, "/"),
      Some(DefaultTimeout(Or(v.timeout, NO_TIMEOUT))))
  }

  function DefaultKey(v: KeyValue): KeyValue { v.(format := OrText(v.format, "ssh")) }

  function DefaultFuse(v: FuseValue): FuseValue { v.(key := Some(DefaultKey(Or(v.key, NO_KEY)))) }

  /** The defaults of the whole configuration, section by section. */
  function Defaults(v: Value): Value {
    Value(Some(DefaultLog(Or(v.log, NO_LOG))), Some(DefaultTelemetry(Or(v.telemetry, NO_TELEMETRY))),
          Some(DefaultFuse(Or(v.fuse, NO_FUSE))), if v.grace == 0 then 120 * SECOND else v.grace)
  }

  // ------------------------------------------------------------------ objects

  class LogConfig {
    var level: string
    constructor () ensures Read() == NO_LOG { level := ""; }

    function Read(): LogValue reads this { LogValue(level) }

    method Default()
      modifies this
      ensures Read() == DefaultLog(old(Read()))
    {
      while true
        invariant level == old(level) || (old(level) == "" && level == "info")
        decreases level == ""
      {
        if level == "" {
          level := "info";
        } else {
          break;
        }
      }
    }

    method Edit(e: LogEdit)
      modifies this
      ensures Read() == EditLog(old(Read()), e)
    {
      if e.level.Some? {
        level := e.level.value;
      }
    }

    method Validate() returns (ok: bool)
      ensures ok <==> level != ""
    {
      return !(level == "");
    }
  }

  class TimeoutConfig {
    var read: int
    var write: int
    constructor () ensures Read() == NO_TIMEOUT { read, write := 0, 0; }

    function Read(): TimeoutValue reads this { TimeoutValue(read, write) }

    method Default()
      modifies this
      ensures Read() == DefaultTimeout(old(Read()))
    {
      while true
        invariant read == old(read) || (old(read) <= 0 && read == 5 * SECOND)
        invariant write == old(write) || (old(write) <= 0 && write == 5 * SECOND)
        decreases read <= 0, write <= 0
      {
        if read <= 0 {
          read := 5 * SECOND;
        } else if write <= 0 {
          write := 5 * SECOND;
        } else {
          break;
        }
      }
    }

    method Edit(e: TimeoutEdit)
      modifies this
      ensures Read() == EditTimeout(old(Read()), e)
    {
      if e.read.Some? {
        read := e.read.value;
      }
      if e.write.Some? {
        write := e.write.value;
      }
    }
  }

  class KeyConfig {
    var format: string
    var path: string
    constructor () ensures Read() == NO_KEY { format, path := "", ""; }

    function Read(): KeyValue reads this { KeyValue(format, path) }

    method Default()
      modifies this
      ensures Read() == DefaultKey(old(Read()))
    {
      while true
        invariant path == old(path) && (format == old(format) || (old(format) == "" && format == "ssh"))
        decreases format == ""
      {
        if format == "" {
          format := "ssh";
        } else {
          break;
        }
      }
    }

    method Edit(e: KeyEdit)
      modifies this
      ensures Read() == EditKey(old(Read()), e)
    {
      if e.format.Some? {
        format := e.format.value;
      }
      if e.path.Some? {
        path := e.path.value;
      }
    }

    method Validate() returns (ok: bool)
      ensures ok <==> path != ""
    {
      return !(path == "");
    }
  }

  class TelemetryConfig {
    var enable: bool
    var addr: string
    var path: string
    var timeout: TimeoutConfig?

    constructor ()
      ensures timeout == null && Read() == NO_TELEMETRY
    {
      enable, addr, path, timeout := false, "", "", null;
    }

    function Read(): TelemetryValue
      reads this, timeout
    {
      TelemetryValue(enable, addr, path, if timeout == null then None else Some(timeout.Read()))
    }

    /** The section's own Default; a timeout it creates is still unset. */
    method Default()
      modifies this
      ensures enable == old(enable) && addr == OrText(old(addr), "127.0.0.1:4280") && path == OrText(old(path), "/")
      ensures timeout != null &&
        if old(timeout) == null then fresh(timeout) && timeout.Read() == NO_TIMEOUT else timeout == old(timeout)
    {
      while true
        invariant enable == old(enable)
        invariant addr == old(addr) || (old(addr) == "" && addr == "127.0.0.1:4280")
        invariant path == old(path) || (old(path) == "" && path == "/")
        invariant timeout == old(timeout)
          || (old(timeout) == null && timeout != null && fresh(timeout) && timeout.Read() == NO_TIMEOUT)
        decreases addr == "", path == "", timeout == null
      {
        if addr == "" {
          addr := "127.0.0.1:4280";
        } else if path == "" {
          path := "/";
        } else if timeout == null {
          timeout := new TimeoutConfig();
        } else {
          break;
        }
      }
    }

    /** The defaults applied to the section and then to what is below it. */
    method DefaultAll()
      modifies this, timeout
      ensures Read() == DefaultTelemetry(old(Read()))
      ensures timeout != null && (timeout == old(timeout) || fresh(timeout))
    {
      Default();
      timeout.Default();
    }

    method Edit(e: TelemetryEdit)
      modifies this, timeout
      ensures Read() == EditTelemetry(old(Read()), e)
      ensures timeout == null || timeout == old(timeout) || fresh(timeout)
    {
      if e.enable.Some? {
        enable := e.enable.value;
      }
      if e.addr.Some? {
        addr := e.addr.value;
      }
      if e.path.Some? {
        path := e.path.value;
      }
      match e.timeout {
        case Keep =>
        case Remove => timeout := null;
        case Edit(t) =>
          if timeout == null {
            timeout := new TimeoutConfig();
          }
          timeout.Edit(t);
      }
    }

    method Validate() returns (ok: bool)
      ensures ok <==> !enable || path != ""
    {
      if !enable {
        return true;
      }
      return !(path == "");
    }
  }

  class FuseConfig {
    var key: KeyConfig?
    var allowOther: bool
    var debug: bool

    constructor ()
      ensures key == null && Read() == NO_FUSE
    {
      key, allowOther, debug := null, false, false;
    }

    function Read(): FuseValue
      reads this, key
    {
      FuseValue(if key == null then None else Some(key.Read()), allowOther, debug)
    }

    method Default()
      modifies this
      ensures allowOther == old(allowOther) && debug == old(debug)
      ensures key != null && if old(key) == null then fresh(key) && key.Read() == NO_KEY else key == old(key)
    {
      while true
        invariant allowOther == old(allowOther) && debug == old(debug)
        invariant key == old(key) || (old(key) == null && key != null && fresh(key) && key.Read() == NO_KEY)
        decreases key == null
      {
        if key == null {
          key := new KeyConfig();
        } else {
          break;
        }
      }
    }

    method DefaultAll()
      modifies this, key
      ensures Read() == DefaultFuse(old(Read()))
      ensures key != null && (key == old(key) || fresh(key))
    {
      Default();
      key.Default();
    }

    method Edit(e: FuseEdit)
      modifies this, key
      ensures Read() == EditFuse(old(Read()), e)
      ensures key == null || key == old(key) || fresh(key)
    {
      if e.allowOther.Some? {
        allowOther := e.allowOther.value;
      }
      if e.debug.Some? {
        debug := e.debug.value;
      }
      match e.key {
        case Keep =>
        case Remove => key := null;
        case Edit(k) =>
          if key == null {
            key := new KeyConfig();
          }
          key.Edit(k);
      }
    }
  }

  class Config {
    var log: LogConfig?
    var telemetry: TelemetryConfig?
    var fuse: FuseConfig?
    var grace: int

    constructor ()
      ensures Read() == EMPTY
    {
      log, telemetry, fuse, grace := null, null, null, 0;
    }

    function Read(): Value
      reads this, log, telemetry, fuse
      reads if telemetry == null then {} else {telemetry.timeout}
      reads if fuse == null then {} else {fuse.key}
    {
      Value(LogPart(), TelemetryPart(), FusePart(), grace)
    }

    function LogPart(): Option<LogValue>
      reads this`log, log
    {
      if log == null then None else Some(log.Read())
    }

    function TelemetryPart(): Option<TelemetryValue>
      reads this`telemetry, telemetry, if telemetry == null then {} else {telemetry.timeout}
    {
      if telemetry == null then None else Some(telemetry.Read())
    }

    function FusePart(): Option<FuseValue>
      reads this`fuse, fuse, if fuse == null then {} else {fuse.key}
    {
      if fuse == null then None else Some(fuse.Read())
    }

    method Default()
      modifies this
      ensures grace == if old(grace) == 0 then 120 * SECOND else old(grace)
      ensures log != null && if old(log) == null then fresh(log) && log.Read() == NO_LOG else log == old(log)
      ensures telemetry != null &&
        if old(telemetry) == null then fresh(telemetry) && telemetry.timeout == null && telemetry.Read() == NO_TELEMETRY
        else telemetry == old(telemetry)
      ensures fuse != null &&
        if old(fuse) == null then fresh(fuse) && fuse.key == null && fuse.Read() == NO_FUSE else fuse == old(fuse)
    {
      while true
        invariant grace == old(grace) || (old(grace) == 0 && grace == 120 * SECOND)
        invariant log == old(log) || (old(log) == null && log != null && fresh(log) && log.Read() == NO_LOG)
        invariant telemetry == old(telemetry) || (old(telemetry) == null && telemetry != null && fresh(telemetry)
          && telemetry.timeout == null && telemetry.Read() == NO_TELEMETRY)
        invariant fuse == old(fuse)
          || (old(fuse) == null && fuse != null && fresh(fuse) && fuse.key == null && fuse.Read() == NO_FUSE)
        decreases log == null, telemetry == null, fuse == null, grace == 0
      {
        if log == null {
          log := new LogConfig();
        } else if telemetry == null {
          telemetry := new TelemetryConfig();
        } else if fuse == null {
          fuse := new FuseConfig();
        } else if grace == 0 {
          grace := 120 * SECOND;
        } else {
          break;
        }
      }
    }

    /** The postprocessor: Default on every section, parents first. */
    method DefaultAll()
      modifies this, log, telemetry, fuse
      modifies if telemetry == null then {} else {telemetry.timeout}
      modifies if fuse == null then {} else {fuse.key}
      ensures Read() == Defaults(old(Read()))
      ensures log == null || log == old(log) || fresh(log)
      ensures telemetry == null || telemetry == old(telemetry) || fresh(telemetry)
      ensures telemetry == null || telemetry.timeout == null || fresh(telemetry.timeout)
        || (old(telemetry) != null && telemetry.timeout == old(telemetry.timeout))
      ensures fuse == null || fuse == old(fuse) || fresh(fuse)
      ensures fuse == null || fuse.key == null || fresh(fuse.key) || (old(fuse) != null && fuse.key == old(fuse.key))
    {
      Default();
      log.Default();
      assert LogPart() == Some(DefaultLog(Or(old(LogPart()), NO_LOG)));
      telemetry.DefaultAll();
      assert TelemetryPart() == Some(DefaultTelemetry(Or(old(TelemetryPart()), NO_TELEMETRY)));
      fuse.DefaultAll();
    }

    /** One source of settings, decoded over what is there. */
    method Set(o: Overlay)
      modifies this, log, telemetry, fuse
      modifies if telemetry == null then {} else {telemetry.timeout}
      modifies if fuse == null then {} else {fuse.key}
      ensures Read() == Apply(old(Read()), o)
      ensures log == null || log == old(log) || fresh(log)
      ensures telemetry == null || telemetry == old(telemetry) || fresh(telemetry)
      ensures telemetry == null || telemetry.timeout == null || fresh(telemetry.timeout)
        || (old(telemetry) != null && telemetry.timeout == old(telemetry.timeout))
      ensures fuse == null || fuse == old(fuse) || fresh(fuse)
      ensures fuse == null || fuse.key == null || fresh(fuse.key) || (old(fuse) != null && fuse.key == old(fuse.key))
    {
      if o.grace.Some? {
        grace := o.grace.value;
      }
      SetLog(o.log);
      assert TelemetryPart() == old(TelemetryPart()) && FusePart() == old(FusePart());
      SetTelemetry(o.telemetry);
      assert FusePart() == old(FusePart()) && LogPart() == ChangedLog(old(LogPart()), o.log);
      SetFuse(o.fuse);
    }

    method SetLog(change: Change<LogEdit>)
      modifies this`log, log
      ensures log == null || log == old(log) || fresh(log)
      ensures LogPart() == ChangedLog(old(LogPart()), change)
    {
      match change {
        case Keep =>
        case Remove => log := null;
        case Edit(e) =>
          if log == null {
            log := new LogConfig();
          }
          log.Edit(e);
      }
    }

    method SetTelemetry(change: Change<TelemetryEdit>)
      modifies this`telemetry, telemetry
      modifies if telemetry == null then {} else {telemetry.timeout}
      ensures telemetry == null || telemetry == old(telemetry) || fresh(telemetry)
      ensures telemetry == null || telemetry.timeout == null || fresh(telemetry.timeout)
        || (old(telemetry) != null && telemetry.timeout == old(telemetry.timeout))
      ensures TelemetryPart() == ChangedTelemetry(old(TelemetryPart()), change)
    {
      match change {
        case Keep =>
        case Remove => telemetry := null;
        case Edit(e) =>
          if telemetry == null {
            telemetry := new TelemetryConfig();
          }
          telemetry.Edit(e);
      }
    }

    method SetFuse(change: Change<FuseEdit>)
      modifies this`fuse, fuse
      modifies if fuse == null then {} else {fuse.key}
      ensures fuse == null || fuse == old(fuse) || fresh(fuse)
      ensures fuse == null || fuse.key == null || fresh(fuse.key) || (old(fuse) != null && fuse.key == old(fuse.key))
      ensures FusePart() == ChangedFuse(old(FusePart()), change)
    {
      match change {
        case Keep =>
        case Remove => fuse := null;
        case Edit(e) =>
          if fuse == null {
            fuse := new FuseConfig();
          }
          fuse.Edit(e);
      }
    }

    /** The validators of all sections that have one and are there. */
    method ValidateAll() returns (ok: bool)
      ensures ok <==> Validates(Read())
      ensures ok <==>
        && (log != null ==> log.level != "")
        && (telemetry != null && telemetry.enable ==> telemetry.path != "")
        && (fuse != null && fuse.key != null ==> fuse.key.path != "")
    {
      ok := true;
      if log != null {
        ok := log.Validate();
      }
      if ok && telemetry != null {
        ok := telemetry.Validate();
      }
      if ok && fuse != null && fuse.key != null {
        ok := fuse.key.Validate();
      }
    }
  }

  /**
   Load: defaults, then each source of settings, then defaults again, then validation. The first pass
   leaves no trace, and only a missing key path is refused.
   */
  method Load(os: seq<Overlay>) returns (c: Config, ok: bool)
    ensures fresh(c) && c.Read() == Defaults(ApplyAll(EMPTY, os))
    ensures ok <==> KeyPath(ApplyAll(EMPTY, os)) != ""
    ensures IsLoaded(os, c.Read()) && (ok <==> Secret(c.Read()) != "")
  {
    c := new Config();
    c.DefaultAll();
    for k := 0 to |os|
      invariant fresh(c) && (c.log == null || fresh(c.log))
      invariant c.telemetry == null
        || (fresh(c.telemetry) && (c.telemetry.timeout == null || fresh(c.telemetry.timeout)))
      invariant c.fuse == null || (fresh(c.fuse) && (c.fuse.key == null || fresh(c.fuse.key)))
      invariant c.Read() == ApplyAll(Defaults(EMPTY), os[..k])
    {
      c.Set(os[k]);
      assert os[..k + 1][..k] == os[..k];
    }
    assert os[..|os|] == os;
    c.DefaultAll();
    ok := c.ValidateAll();
    LoadOutcome(os, c.Read(), ok);
  }

  // ---------------------------------------------------------------- overlays

  /** What a settings source does to a section: nothing, remove it, or set some of its fields. */
  datatype Change<T> = Keep | Remove | Edit(edit: T)

  datatype LogEdit = LogEdit(level: Option<string>)
  datatype TimeoutEdit = TimeoutEdit(read: Option<int>, write: Option<int>)
  datatype TelemetryEdit = TelemetryEdit(enable: Option<bool>, addr: Option<string>, path: Option<string>,
    timeout: Change<TimeoutEdit>)
  datatype KeyEdit = KeyEdit(format: Option<string>, path: Option<string>)
  datatype FuseEdit = FuseEdit(key: Change<KeyEdit>, allowOther: Option<bool>, debug: Option<bool>)
  datatype Overlay = Overlay(log: Change<LogEdit>, telemetry: Change<TelemetryEdit>, fuse: Change<FuseEdit>,
    grace: Option<int>)

  function EditLog(v: LogValue, e: LogEdit): LogValue { LogValue(Or(e.level, v.level)) }

  function EditTimeout(v: TimeoutValue, e: TimeoutEdit): TimeoutValue {
    TimeoutValue(Or(e.read, v.read), Or(e.write, v.write))
  }

  function EditTelemetry(v: TelemetryValue, e: TelemetryEdit): TelemetryValue {
    TelemetryValue(Or(e.enable, v.enable), Or(e.addr, v.addr), Or(e.path, v.path),
      match e.timeout
      case Keep => v.timeout
      case Remove => None
      case Edit(t) => Some(EditTimeout(Or(v.timeout, NO_TIMEOUT), t)))
  }

  function EditKey(v: KeyValue, e: KeyEdit): KeyValue { KeyValue(Or(e.format, v.format), Or(e.path, v.path)) }

  function EditFuse(v: FuseValue, e: FuseEdit): FuseValue {
    FuseValue(match e.key case Keep => v.key case Remove => None case Edit(k) => Some(EditKey(Or(v.key, NO_KEY), k)),
      Or(e.allowOther, v.allowOther), Or(e.debug, v.debug))
  }

  /** Setting a field of a missing section creates the section. */
  function ChangedLog(v: Option<LogValue>, change: Change<LogEdit>): Option<LogValue> {
    match change case Keep => v case Remove => None case Edit(e) => Some(EditLog(Or(v, NO_LOG), e))
  }

  function ChangedTelemetry(v: Option<TelemetryValue>, change: Change<TelemetryEdit>): Option<TelemetryValue> {
    match change case Keep => v case Remove => None case Edit(e) => Some(EditTelemetry(Or(v, NO_TELEMETRY), e))
  }

  function ChangedFuse(v: Option<FuseValue>, change: Change<FuseEdit>): Option<FuseValue> {
    match change case Keep => v case Remove => None case Edit(e) => Some(EditFuse(Or(v, NO_FUSE), e))
  }

  function Apply(v: Value, o: Overlay): Value {
    Value(ChangedLog(v.log, o.log), ChangedTelemetry(v.telemetry, o.telemetry), ChangedFuse(v.fuse, o.fuse),
      Or(o.grace, v.grace))
  }

  function ApplyAll(v: Value, os: seq<Overlay>): Value {
    if os == [] then v else Apply(ApplyAll(v, os[..|os| - 1]), os[|os| - 1])
  }

  /** Two configurations that the defaults do not tell apart. */
  ghost predicate Alike(v: Value, w: Value) { Defaults(v) == Defaults(w) }

  lemma DefaultsIdempotent(v: Value)
    ensures Defaults(Defaults(v)) == Defaults(v)
  {
  }

  lemma TimeoutsAlike(v: TimeoutValue, w: TimeoutValue, e: TimeoutEdit)
    requires DefaultTimeout(v) == DefaultTimeout(w)
    ensures DefaultTimeout(EditTimeout(v, e)) == DefaultTimeout(EditTimeout(w, e))
  {
  }

  lemma TelemetriesAlike(v: TelemetryValue, w: TelemetryValue, e: TelemetryEdit)
    requires DefaultTelemetry(v) == DefaultTelemetry(w)
    ensures DefaultTelemetry(EditTelemetry(v, e)) == DefaultTelemetry(EditTelemetry(w, e))
  {
    if e.timeout.Edit? {
      TimeoutsAlike(Or(v.timeout, NO_TIMEOUT), Or(w.timeout, NO_TIMEOUT), e.timeout.edit);
    }
  }

  lemma FusesAlike(v: FuseValue, w: FuseValue, e: FuseEdit)
    requires DefaultFuse(v) == DefaultFuse(w)
    ensures DefaultFuse(EditFuse(v, e)) == DefaultFuse(EditFuse(w, e))
  {
  }

  /** Settings do not tell apart what the defaults do not. */
  lemma OverlayKeepsAlike(v: Value, w: Value, o: Overlay)
    requires Alike(v, w)
    ensures Alike(Apply(v, o), Apply(w, o))
  {
    if o.telemetry.Edit? {
      TelemetriesAlike(Or(v.telemetry, NO_TELEMETRY), Or(w.telemetry, NO_TELEMETRY), o.telemetry.edit);
    }
    if o.fuse.Edit? {
      FusesAlike(Or(v.fuse, NO_FUSE), Or(w.fuse, NO_FUSE), o.fuse.edit);
    }
  }

  lemma {:induction false} OverlaysKeepAlike(v: Value, w: Value, os: seq<Overlay>)
    requires Alike(v, w)
    ensures Alike(ApplyAll(v, os), ApplyAll(w, os))
  {
    if os == [] {
    } else {
      OverlaysKeepAlike(v, w, os[..|os| - 1]);
      OverlayKeepsAlike(ApplyAll(v, os[..|os| - 1]), ApplyAll(w, os[..|os| - 1]), os[|os| - 1]);
    }
  }

  /** The early pass of Load changes nothing: the defaults before the settings are made up for after. */
  lemma EarlyDefaultsAreInvisible(v: Value, os: seq<Overlay>)
    ensures Defaults(ApplyAll(Defaults(v), os)) == Defaults(ApplyAll(v, os))
  {
    DefaultsIdempotent(v);
    OverlaysKeepAlike(Defaults(v), v, os);
  }

  /** A section without a validator, or one that is not there, is not an objection. */
  predicate Validates(v: Value) {
    && (v.log.Some? ==> v.log.value.level != "")
    && (v.telemetry.Some? ==> !v.telemetry.value.enable || v.telemetry.value.path != "")
    && (v.fuse.Some? && v.fuse.value.key.Some? ==> v.fuse.value.key.value.path != "")
  }

  /** The path that the settings give the private key, if any. */
  function KeyPath(v: Value): string {
    if v.fuse.Some? && v.fuse.value.key.Some? then v.fuse.value.key.value.path else ""
  }

  /** With the defaults in place, a missing private key is the only thing validation can object to. */
  lemma LoadValidatesExactly(os: seq<Overlay>)
    ensures Validates(Defaults(ApplyAll(Defaults(EMPTY), os))) <==> KeyPath(ApplyAll(EMPTY, os)) != ""
  {
    EarlyDefaultsAreInvisible(EMPTY, os);
  }

  // ----------------------------------------------------- what a load ends with

  /** What one source of settings says about one field: nothing, that its section is empty, or a value. */
  datatype Setting<T> = Silent | Cleared | Given(value: T)

  /** What a source says about the fields of a section that it does not edit. */
  function Outside<E, T>(change: Change<E>): Setting<T> {
    if change.Keep? then Silent else Cleared
  }

  function Of<T>(x: Option<T>): Setting<T> {
    if x.Some? then Given(x.value) else Silent
  }

  /** The last source that says anything about the field says `x`; `unset` is what no source gives it. */
  ghost predicate LastSays<T>(os: seq<Overlay>, about: Overlay -> Setting<T>, unset: T, x: T) {
    || (exists j | 0 <= j < |os| :: about(os[j]) == Given(x) && SilentFrom(os, about, j + 1))
    || (x == unset && exists j | 0 <= j < |os| :: about(os[j]) == Cleared && SilentFrom(os, about, j + 1))
    || (x == unset && SilentFrom(os, about, 0))
  }

  ghost predicate SilentFrom<T>(os: seq<Overlay>, about: Overlay -> Setting<T>, from: nat) {
    forall l | from <= l < |os| :: about(os[l]) == Silent
  }

  ghost predicate Tracks<T>(view: Value -> T, about: Overlay -> Setting<T>, unset: T) {
    && view(EMPTY) == unset
    && forall v, o :: view(Apply(v, o)) == Said(view(v), about(o), unset)
  }

  function Said<T>(x: T, says: Setting<T>, unset: T): T {
    match says case Silent => x case Cleared => unset case Given(y) => y
  }

  lemma {:induction false} LastOf<T>(os: seq<Overlay>, view: Value -> T, about: Overlay -> Setting<T>, unset: T)
    requires Tracks(view, about, unset)
    ensures LastSays(os, about, unset, view(ApplyAll(EMPTY, os)))
  {
    if os == [] {
    } else {
      var init, last := os[..|os| - 1], os[|os| - 1];
      LastOf(init, view, about, unset);
      SaysNext(os, about, unset, view(ApplyAll(EMPTY, init)));
      assert view(Apply(ApplyAll(EMPTY, init), last)) == Said(view(ApplyAll(EMPTY, init)), about(last), unset);
    }
  }

  lemma SaysNext<T>(os: seq<Overlay>, about: Overlay -> Setting<T>, unset: T, x: T)
    requires os != [] && LastSays(os[..|os| - 1], about, unset, x)
    ensures LastSays(os, about, unset, Said(x, about(os[|os| - 1]), unset))
  {
    var init, last := os[..|os| - 1], os[|os| - 1];
    assert forall l | 0 <= l < |init| :: init[l] == os[l];
    if about(last) == Silent {
      assert forall j | 0 <= j <= |init| :: SilentFrom(os, about, j) <==> SilentFrom(init, about, j);
    } else {
      assert SilentFrom(os, about, |os| - 1 + 1);
    }
  }

  // Every field of the configuration, and what a source of settings says about it.

  function Level(v: Value): string { Or(v.log, NO_LOG).level }
  function Enable(v: Value): bool { Or(v.telemetry, NO_TELEMETRY).enable }
  function Addr(v: Value): string { Or(v.telemetry, NO_TELEMETRY).addr }
  function Path(v: Value): string { Or(v.telemetry, NO_TELEMETRY).path }
  function ReadTimeout(v: Value): int { Or(Or(v.telemetry, NO_TELEMETRY).timeout, NO_TIMEOUT).read }
  function WriteTimeout(v: Value): int { Or(Or(v.telemetry, NO_TELEMETRY).timeout, NO_TIMEOUT).write }
  function AllowOther(v: Value): bool { Or(v.fuse, NO_FUSE).allowOther }
  function Debug(v: Value): bool { Or(v.fuse, NO_FUSE).debug }
  function Format(v: Value): string { Or(Or(v.fuse, NO_FUSE).key, NO_KEY).format }
  function Secret(v: Value): string { Or(Or(v.fuse, NO_FUSE).key, NO_KEY).path }
  function Grace(v: Value): int { v.grace }

  function LevelIn(o: Overlay): Setting<string> {
    if o.log.Edit? then Of(o.log.edit.level) else Outside(o.log)
  }
  function EnableIn(o: Overlay): Setting<bool> {
    if o.telemetry.Edit? then Of(o.telemetry.edit.enable) else Outside(o.telemetry)
  }
  function AddrIn(o: Overlay): Setting<string> {
    if o.telemetry.Edit? then Of(o.telemetry.edit.addr) else Outside(o.telemetry)
  }
  function PathIn(o: Overlay): Setting<string> {
    if o.telemetry.Edit? then Of(o.telemetry.edit.path) else Outside(o.telemetry)
  }
  function ReadTimeoutIn(o: Overlay): Setting<int> {
    if !o.telemetry.Edit? then Outside(o.telemetry)
    else
      var timeout := o.telemetry.edit.timeout;
      if timeout.Edit? then Of(timeout.edit.read) else Outside(timeout)
  }
  function WriteTimeoutIn(o: Overlay): Setting<int> {
    if !o.telemetry.Edit? then Outside(o.telemetry)
    else
      var timeout := o.telemetry.edit.timeout;
      if timeout.Edit? then Of(timeout.edit.write) else Outside(timeout)
  }
  function AllowOtherIn(o: Overlay): Setting<bool> {
    if o.fuse.Edit? then Of(o.fuse.edit.allowOther) else Outside(o.fuse)
  }
  function DebugIn(o: Overlay): Setting<bool> {
    if o.fuse.Edit? then Of(o.fuse.edit.debug) else Outside(o.fuse)
  }
  function FormatIn(o: Overlay): Setting<string> {
    if !o.fuse.Edit? then Outside(o.fuse)
    else if o.fuse.edit.key.Edit? then Of(o.fuse.edit.key.edit.format) else Outside(o.fuse.edit.key)
  }
  function SecretIn(o: Overlay): Setting<string> {
    if !o.fuse.Edit? then Outside(o.fuse)
    else if o.fuse.edit.key.Edit? then Of(o.fuse.edit.key.edit.path) else Outside(o.fuse.edit.key)
  }
  function GraceIn(o: Overlay): Setting<int> { Of(o.grace) }

  lemma LevelTracks(os: seq<Overlay>)
    ensures LastSays(os, LevelIn, "", Level(ApplyAll(EMPTY, os)))
  {
    forall v, o ensures Level(Apply(v, o)) == Said(Level(v), LevelIn(o), "") {
      LevelNext(v, o);
    }
    LastOf(os, Level, LevelIn, "");
  }

  lemma LevelNext(v: Value, o: Overlay)
    ensures Level(Apply(v, o)) == Said(Level(v), LevelIn(o), "")
  {
  }

  lemma EnableTracks(os: seq<Overlay>)
    ensures LastSays(os, EnableIn, false, Enable(ApplyAll(EMPTY, os)))
  {
    forall v, o ensures Enable(Apply(v, o)) == Said(Enable(v), EnableIn(o), false) {
      EnableNext(v, o);
    }
    LastOf(os, Enable, EnableIn, false);
  }

  lemma EnableNext(v: Value, o: Overlay)
    ensures Enable(Apply(v, o)) == Said(Enable(v), EnableIn(o), false)
  {
  }

  lemma AddrTracks(os: seq<Overlay>)
    ensures LastSays(os, AddrIn, "", Addr(ApplyAll(EMPTY, os)))
  {
    forall v, o ensures Addr(Apply(v, o)) == Said(Addr(v), AddrIn(o), "") {
      AddrNext(v, o);
    }
    LastOf(os, Addr, AddrIn, "");
  }

  lemma AddrNext(v: Value, o: Overlay)
    ensures Addr(Apply(v, o)) == Said(Addr(v), AddrIn(o), "")
  {
  }

  lemma PathTracks(os: seq<Overlay>)
    ensures LastSays(os, PathIn, "", Path(ApplyAll(EMPTY, os)))
  {
    forall v, o ensures Path(Apply(v, o)) == Said(Path(v), PathIn(o), "") {
      PathNext(v, o);
    }
    LastOf(os, Path, PathIn, "");
  }

  lemma PathNext(v: Value, o: Overlay)
    ensures Path(Apply(v, o)) == Said(Path(v), PathIn(o), "")
  {
  }

  lemma ReadTimeoutTracks(os: seq<Overlay>)
    ensures LastSays(os, ReadTimeoutIn, 0, ReadTimeout(ApplyAll(EMPTY, os)))
  {
    forall v, o ensures ReadTimeout(Apply(v, o)) == Said(ReadTimeout(v), ReadTimeoutIn(o), 0) {
      ReadTimeoutNext(v, o);
    }
    LastOf(os, ReadTimeout, ReadTimeoutIn, 0);
  }

  lemma ReadTimeoutNext(v: Value, o: Overlay)
    ensures ReadTimeout(Apply(v, o)) == Said(ReadTimeout(v), ReadTimeoutIn(o), 0)
  {
  }

  lemma WriteTimeoutTracks(os: seq<Overlay>)
    ensures LastSays(os, WriteTimeoutIn, 0, WriteTimeout(ApplyAll(EMPTY, os)))
  {
    forall v, o ensures WriteTimeout(Apply(v, o)) == Said(WriteTimeout(v), WriteTimeoutIn(o), 0) {
      WriteTimeoutNext(v, o);
    }
    LastOf(os, WriteTimeout, WriteTimeoutIn, 0);
  }

  lemma WriteTimeoutNext(v: Value, o: Overlay)
    ensures WriteTimeout(Apply(v, o)) == Said(WriteTimeout(v), WriteTimeoutIn(o), 0)
  {
  }

  lemma AllowOtherTracks(os: seq<Overlay>)
    ensures LastSays(os, AllowOtherIn, false, AllowOther(ApplyAll(EMPTY, os)))
  {
    forall v, o ensures AllowOther(Apply(v, o)) == Said(AllowOther(v), AllowOtherIn(o), false) {
      AllowOtherNext(v, o);
    }
    LastOf(os, AllowOther, AllowOtherIn, false);
  }

  lemma AllowOtherNext(v: Value, o: Overlay)
    ensures AllowOther(Apply(v, o)) == Said(AllowOther(v), AllowOtherIn(o), false)
  {
  }

  lemma DebugTracks(os: seq<Overlay>)
    ensures LastSays(os, DebugIn, false, Debug(ApplyAll(EMPTY, os)))
  {
    forall v, o ensures Debug(Apply(v, o)) == Said(Debug(v), DebugIn(o), false) {
      DebugNext(v, o);
    }
    LastOf(os, Debug, DebugIn, false);
  }

  lemma DebugNext(v: Value, o: Overlay)
    ensures Debug(Apply(v, o)) == Said(Debug(v), DebugIn(o), false)
  {
  }

  lemma FormatTracks(os: seq<Overlay>)
    ensures LastSays(os, FormatIn, "", Format(ApplyAll(EMPTY, os)))
  {
    forall v, o ensures Format(Apply(v, o)) == Said(Format(v), FormatIn(o), "") {
      FormatNext(v, o);
    }
    LastOf(os, Format, FormatIn, "");
  }

  lemma FormatNext(v: Value, o: Overlay)
    ensures Format(Apply(v, o)) == Said(Format(v), FormatIn(o), "")
  {
  }

  lemma SecretTracks(os: seq<Overlay>)
    ensures LastSays(os, SecretIn, "", Secret(ApplyAll(EMPTY, os)))
  {
    forall v, o ensures Secret(Apply(v, o)) == Said(Secret(v), SecretIn(o), "") {
      SecretNext(v, o);
    }
    LastOf(os, Secret, SecretIn, "");
  }

  lemma SecretNext(v: Value, o: Overlay)
    ensures Secret(Apply(v, o)) == Said(Secret(v), SecretIn(o), "")
  {
  }

  lemma GraceTracks(os: seq<Overlay>)
    ensures LastSays(os, GraceIn, 0, Grace(ApplyAll(EMPTY, os)))
  {
    forall v, o ensures Grace(Apply(v, o)) == Said(Grace(v), GraceIn(o), 0) {
      GraceNext(v, o);
    }
    LastOf(os, Grace, GraceIn, 0);
  }

  lemma GraceNext(v: Value, o: Overlay)
    ensures Grace(Apply(v, o)) == Said(Grace(v), GraceIn(o), 0)
  {
  }

  /** A text field: what the last source that mentions it says, or the default if that is nothing. */
  ghost predicate TextIs(os: seq<Overlay>, about: Overlay -> Setting<string>, default: string, x: string) {
    exists y :: LastSays(os, about, "", y) && x == if y == "" then default else y
  }

  /** A timeout, in nanoseconds: the default replaces anything that is not positive. */
  ghost predicate TimeoutIs(os: seq<Overlay>, about: Overlay -> Setting<int>, x: int) {
    exists y :: LastSays(os, about, 0, y) && x == if y <= 0 then 5_000_000_000 else y
  }

  ghost predicate GraceIs(os: seq<Overlay>, x: int) {
    exists y :: LastSays(os, GraceIn, 0, y) && x == if y == 0 then 120_000_000_000 else y
  }

  /**
   A configuration with every section, in which each field is what the last source that mentions it
   says, or its default where that leaves it unset.
   */
  ghost predicate IsLoaded(os: seq<Overlay>, w: Value) {
    LogLoaded(os, w) && TelemetryLoaded(os, w) && FuseLoaded(os, w)
  }

  ghost predicate LogLoaded(os: seq<Overlay>, w: Value) {
    w.log.Some? && TextIs(os, LevelIn, "info", Level(w)) && GraceIs(os, Grace(w))
  }

  ghost predicate TelemetryLoaded(os: seq<Overlay>, w: Value) {
    && w.telemetry.Some? && w.telemetry.value.timeout.Some?
    && LastSays(os, EnableIn, false, Enable(w))
    && TextIs(os, AddrIn, "127.0.0.1:4280", Addr(w)) && TextIs(os, PathIn, "/", Path(w))
    && TimeoutIs(os, ReadTimeoutIn, ReadTimeout(w)) && TimeoutIs(os, WriteTimeoutIn, WriteTimeout(w))
  }

  ghost predicate FuseLoaded(os: seq<Overlay>, w: Value) {
    && w.fuse.Some? && w.fuse.value.key.Some?
    && LastSays(os, AllowOtherIn, false, AllowOther(w)) && LastSays(os, DebugIn, false, Debug(w))
    && TextIs(os, FormatIn, "ssh", Format(w)) && LastSays(os, SecretIn, "", Secret(w))
  }

  lemma LogIsLoaded(os: seq<Overlay>)
    ensures LogLoaded(os, Defaults(ApplyAll(EMPTY, os)))
  {
    LevelTracks(os);
    GraceTracks(os);
  }

  lemma TelemetryIsLoaded(os: seq<Overlay>)
    ensures TelemetryLoaded(os, Defaults(ApplyAll(EMPTY, os)))
  {
    EnableTracks(os);
    AddrTracks(os);
    PathTracks(os);
    ReadTimeoutTracks(os);
    WriteTimeoutTracks(os);
  }

  lemma FuseIsLoaded(os: seq<Overlay>)
    ensures FuseLoaded(os, Defaults(ApplyAll(EMPTY, os)))
  {
    AllowOtherTracks(os);
    DebugTracks(os);
    FormatTracks(os);
    SecretTracks(os);
  }

  lemma LoadedFields(os: seq<Overlay>)
    ensures IsLoaded(os, Defaults(ApplyAll(EMPTY, os)))
  {
    LogIsLoaded(os);
    TelemetryIsLoaded(os);
    FuseIsLoaded(os);
  }

  /** What the two passes of defaults and the validators leave. */
  lemma LoadOutcome(os: seq<Overlay>, w: Value, ok: bool)
    requires w == Defaults(ApplyAll(Defaults(EMPTY), os)) && ok == Validates(w)
    ensures w == Defaults(ApplyAll(EMPTY, os)) && IsLoaded(os, w)
    ensures (ok <==> KeyPath(ApplyAll(EMPTY, os)) != "") && (ok <==> Secret(w) != "")
  {
    EarlyDefaultsAreInvisible(EMPTY, os);
    LoadValidatesExactly(os);
    LoadedFields(os);
  }
}
