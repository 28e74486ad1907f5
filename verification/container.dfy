/**
 * The command line of the container server: how bind, volume and tmpfs
 * mount specifications are rendered for `--mount`, how the working
 * directory is chosen, and the argument list given to the container
 * runtime.
 *
 * Resolving a host path against the file system is a parameter `resolve`
 * that returns the absolute path both in native and in posix spelling.
 */
module Container {
  import opened Wrappers
  import Strings
  import Sequences

  /** The fields every mount has. `source` is left out of the rendering when absent or empty. */
  datatype MountBase = MountBase(kind: string, target: string, source: Option<string>, readonly: bool)

  /** The bind propagation modes the runtime accepts. */
  datatype Propagation = Private | RPrivate | Shared | RShared | Slave | RSlave

  /** A structured mount: bind, volume or tmpfs, each with its own extras. */
  datatype MountPoint =
    | Bind(base: MountBase, propagation: Option<Propagation>)
    | Volume(base: MountBase, driver: Option<string>, subpath: Option<string>, nocopy: bool, opts: seq<string>)
    | Tmpfs(base: MountBase, size: Option<int>, mode: Option<int>)

  /** A mount as the user may give it: structured, a ready-made string, or a host path. */
  datatype Mount = Point(point: MountPoint) | Raw(text: string) | HostPath(path: string)

  /** An absolute path in the host's own spelling and in posix spelling. */
  datatype Resolved = Resolved(native: string, posix: string)

  /** Python truthiness of an optional string: present and non-empty. */
  predicate Truthy(o: Option<string>) {
    o.Some? && |o.value| > 0
  }

  function PropagationName(p: Propagation): string {
    match p
    case Private => "private"
    case RPrivate => "rprivate"
    case Shared => "shared"
    case RShared => "rshared"
    case Slave => "slave"
    case RSlave => "rslave"
  }

  // ---------------------------------------------------------------------------
  // Rendering, as `_parts` and `__str__` build it
  // ---------------------------------------------------------------------------

  /** The keys of `key=value` parts. */
  datatype Key =
    | TypeKey | SourceKey | TargetKey | BindPropagationKey
    | VolumeDriverKey | VolumeSubpathKey | VolumeOptKey | TmpfsSizeKey | TmpfsModeKey

  /** The bare flags. */
  datatype Switch = ReadonlySwitch | NoCopySwitch

  /** One comma-separated part of a mount specification: `key=value` or a bare flag. */
  datatype Field = KV(key: Key, value: string) | Bare(switch: Switch)

  function KeyName(k: Key): string {
    match k
    case TypeKey => "type"
    case SourceKey => "source"
    case TargetKey => "target"
    case BindPropagationKey => "bind-propagation"
    case VolumeDriverKey => "volume-driver"
    case VolumeSubpathKey => "volume-subpath"
    case VolumeOptKey => "volume-opt"
    case TmpfsSizeKey => "tmpfs-size"
    case TmpfsModeKey => "tmpfs-mode"
  }

  function SwitchName(f: Switch): string {
    match f
    case ReadonlySwitch => "readonly"
    case NoCopySwitch => "volume-nocopy"
  }

  /** `MountBase._parts`: type, source only when non-empty, target, and `readonly` only when set. */
  function BaseFields(b: MountBase): seq<Field> {
    [KV(TypeKey, b.kind)]
    + (if Truthy(b.source) then [KV(SourceKey, b.source.value)] else [])
    + [KV(TargetKey, b.target)]
    + (if b.readonly then [Bare(ReadonlySwitch)] else [])
  }

  /** One `volume-opt` part per option, in list order. */
  function OptFields(opts: seq<string>): seq<Field> {
    seq(|opts|, i requires 0 <= i < |opts| => KV(VolumeOptKey, opts[i]))
  }

  /** What each kind of mount adds after the base parts. */
  function ExtraFields(m: MountPoint): seq<Field> {
    match m
    case Bind(_, prop) =>
      if prop.Some? then [KV(BindPropagationKey, PropagationName(prop.value))] else []
    case Volume(_, driver, subpath, nocopy, opts) =>
      (if Truthy(driver) then [KV(VolumeDriverKey, driver.value)] else [])
      + (if Truthy(subpath) then [KV(VolumeSubpathKey, subpath.value)] else [])
      + (if nocopy then [Bare(NoCopySwitch)] else [])
      + OptFields(opts)
    case Tmpfs(_, size, mode) =>
      (if size.Some? then [KV(TmpfsSizeKey, Strings.PyDecimal(size.value))] else [])
      + (if mode.Some? then [KV(TmpfsModeKey, Strings.PyOctal(mode.value))] else [])
  }

  /** The `_parts` of a mount, as fields: the base parts, then the kind's own extras. */
  function Fields(m: MountPoint): seq<Field> {
    BaseFields(m.base) + ExtraFields(m)
  }

  function RenderField(f: Field): string {
    match f
    case KV(k, v) => KeyName(k) + "=" + v
    case Bare(n) => SwitchName(n)
  }

  /** Each field written as `key=value` or as its bare flag. */
  function RenderAll(fs: seq<Field>): (r: seq<string>)
    ensures |r| == |fs|
    ensures forall i :: 0 <= i < |fs| ==> r[i] == RenderField(fs[i])
  {
    seq(|fs|, i requires 0 <= i < |fs| => RenderField(fs[i]))
  }

  /** `_parts`. */
  function Parts(m: MountPoint): seq<string> {
    RenderAll(Fields(m))
  }

  /** `str(mount)`: the parts joined by commas. */
  function Render(m: MountPoint): string {
    Strings.Join(Parts(m), ',')
  }

  // ---------------------------------------------------------------------------
  // Reading a specification back
  // ---------------------------------------------------------------------------

  function KeyOf(s: string): Option<Key> {
    if s == "type" then Some(TypeKey)
    else if s == "source" then Some(SourceKey)
    else if s == "target" then Some(TargetKey)
    else if s == "bind-propagation" then Some(BindPropagationKey)
    else if s == "volume-driver" then Some(VolumeDriverKey)
    else if s == "volume-subpath" then Some(VolumeSubpathKey)
    else if s == "volume-opt" then Some(VolumeOptKey)
    else if s == "tmpfs-size" then Some(TmpfsSizeKey)
    else if s == "tmpfs-mode" then Some(TmpfsModeKey)
    else None
  }

  function SwitchOf(s: string): Option<Switch> {
    if s == "readonly" then Some(ReadonlySwitch)
    else if s == "volume-nocopy" then Some(NoCopySwitch)
    else None
  }

  /**
   * Reads one part: up to the first `=` is the key and the rest the value;
   * a part without `=` is a flag. An unknown key or flag is unreadable.
   */
  function ParseField(p: string): Option<Field> {
    var k := Strings.Find(p, '=');
    if k < |p| then
      match KeyOf(p[..k])
      case Some(key) => Some(KV(key, p[k + 1..]))
      case None => None
    else
      match SwitchOf(p)
      case Some(f) => Some(Bare(f))
      case None => None
  }

  /** Reads every part, or nothing when one is unreadable. */
  function ParseAll(ps: seq<string>): Option<seq<Field>>
    decreases |ps|
  {
    if |ps| == 0 then Some([])
    else
      match ParseField(ps[0])
      case None => None
      case Some(f) =>
        match ParseAll(ps[1..])
        case None => None
        case Some(rest) => Some([f] + rest)
  }

  /** Reads a mount specification back into its parts. */
  function Decode(s: string): Option<seq<Field>> {
    ParseAll(Strings.Split(s, ','))
  }

  /** The value of the first part with key `key`, if any. */
  function Lookup(fs: seq<Field>, key: Key): (r: Option<string>)
    ensures r.Some? <==> exists i :: 0 <= i < |fs| && fs[i].KV? && fs[i].key == key
    ensures r.Some? ==> KV(key, r.value) in fs
    decreases |fs|
  {
    if |fs| == 0 then None
    else if fs[0].KV? && fs[0].key == key then Some(fs[0].value)
    else
      var rest := Lookup(fs[1..], key);
      assert forall i :: 1 <= i < |fs| ==> fs[i] == fs[1..][i - 1];
      rest
  }

  /** Key names hold neither `=` nor `,`. */
  lemma KeyNameClean(k: Key)
    ensures '=' !in KeyName(k) && ',' !in KeyName(k)
  {
    KeyNameLetters(k);
  }

  /** Key names are spelled with lower-case letters and dashes only. */
  lemma KeyNameLetters(k: Key)
    ensures forall i :: 0 <= i < |KeyName(k)| ==> 'a' <= KeyName(k)[i] <= 'z' || KeyName(k)[i] == '-'
  {
  }

  /** Key names read back as their key. */
  lemma KeyNameReadsBack(k: Key)
    ensures KeyOf(KeyName(k)) == Some(k)
  {
  }

  /** Flag names hold neither `=` nor `,`, and read back as their flag. */
  lemma SwitchNameClean(f: Switch)
    ensures '=' !in SwitchName(f) && ',' !in SwitchName(f)
    ensures SwitchOf(SwitchName(f)) == Some(f)
  {
  }

  /** A field survives rendering and reading back. */
  lemma ParseRenderField(f: Field)
    ensures ParseField(RenderField(f)) == Some(f)
  {
    match f
    case KV(k, v) =>
      KeyNameClean(k);
      KeyNameReadsBack(k);
      var name := KeyName(k);
      Strings.FindAfter(name, '=', v);
      var p := name + "=" + v;
      assert p[..|name|] == name && p[|name| + 1..] == v;
    case Bare(n) =>
      SwitchNameClean(n);
      assert Strings.Find(SwitchName(n), '=') == |SwitchName(n)|;
  }

  /** Rendered fields read back as themselves. */
  lemma {:induction false} ParseAllRendered(fs: seq<Field>)
    ensures ParseAll(RenderAll(fs)) == Some(fs)
    decreases |fs|
  {
    if |fs| > 0 {
      var ps := RenderAll(fs);
      ParseRenderField(fs[0]);
      assert ps[1..] == RenderAll(fs[1..]);
      ParseAllRendered(fs[1..]);
      ParseAllCons(ps, fs[0], fs[1..]);
      assert [fs[0]] + fs[1..] == fs;
    }
  }

  /** Reading a non-empty list of parts reads its first part and then the rest. */
  lemma ParseAllCons(ps: seq<string>, f: Field, rest: seq<Field>)
    requires |ps| > 0 && ParseField(ps[0]) == Some(f) && ParseAll(ps[1..]) == Some(rest)
    ensures ParseAll(ps) == Some([f] + rest)
  {
  }

  /** No value of the mount contains a comma, so its rendering splits unambiguously. */
  predicate CommaFree(m: MountPoint) {
    forall i :: 0 <= i < |Fields(m)| ==> Fields(m)[i].KV? ==> ',' !in Fields(m)[i].value
  }

  /** Reading back the rendering of a mount whose values hold no comma gives exactly its parts, in order. */
  lemma DecodeRender(m: MountPoint)
    requires CommaFree(m)
    ensures Decode(Render(m)) == Some(Fields(m))
  {
    var fs := Fields(m);
    var ps := Parts(m);
    assert Strings.FreeOf(ps, ',') by {
      forall i | 0 <= i < |ps|
        ensures ',' !in ps[i]
      {
        match fs[i]
        case KV(k, v) =>
          KeyNameClean(k);
          assert ps[i] == KeyName(k) + "=" + v;
        case Bare(n) =>
          SwitchNameClean(n);
      }
    }
    assert |fs| >= 1 by { assert |BaseFields(m.base)| >= 2; }
    Strings.SplitJoin(ps, ',');
    ParseAllRendered(fs);
  }

  /** The bare `readonly` flag is among a mount's parts exactly when the mount is read-only. */
  lemma ReadonlyFlag(m: MountPoint)
    ensures "readonly" in Parts(m) <==> m.base.readonly
  {
    var fs, ps := Fields(m), Parts(m);
    ReadonlyField(m);
    if "readonly" in ps {
      var i :| 0 <= i < |ps| && ps[i] == "readonly";
      RendersReadonly(fs[i]);
    }
    if Bare(ReadonlySwitch) in fs {
      var i :| 0 <= i < |fs| && fs[i] == Bare(ReadonlySwitch);
      assert ps[i] == "readonly";
    }
  }

  /** Only the bare `readonly` flag renders as `readonly`: every `key=value` part holds a `=`. */
  lemma RendersReadonly(f: Field)
    ensures RenderField(f) == "readonly" <==> f == Bare(ReadonlySwitch)
  {
    if f.KV? {
      var name := KeyName(f.key);
      assert RenderField(f)[|name|] == '=';
      assert '=' !in "readonly";
    }
  }

  /** The bare `readonly` field comes only from the base, and only when it is set. */
  lemma ReadonlyField(m: MountPoint)
    ensures Bare(ReadonlySwitch) in Fields(m) <==> m.base.readonly
  {
    var bf, ef := BaseFields(m.base), ExtraFields(m);
    assert Fields(m) == bf + ef;
    assert Bare(ReadonlySwitch) !in ef;
    if m.base.readonly {
      assert bf[|bf| - 1] == Bare(ReadonlySwitch);
    }
  }

  /** A lookup passes over parts that do not carry its key. */
  lemma {:induction false} LookupSkip(a: seq<Field>, b: seq<Field>, key: Key)
    requires forall i :: 0 <= i < |a| ==> a[i].Bare? || a[i].key != key
    ensures Lookup(a + b, key) == Lookup(b, key)
    decreases |a|
  {
    if |a| > 0 {
      assert (a + b)[1..] == a[1..] + b;
      LookupSkip(a[1..], b, key);
    } else {
      assert a + b == b;
    }
  }

  /** The tmpfs size and mode parts, found by key among a tmpfs mount's parts. */
  lemma TmpfsFields(b: MountBase, size: Option<int>, mode: Option<int>)
    ensures
      var fs := Fields(Tmpfs(b, size, mode));
      && Lookup(fs, TmpfsSizeKey) == (if size.Some? then Some(Strings.PyDecimal(size.value)) else None)
      && Lookup(fs, TmpfsModeKey) == (if mode.Some? then Some(Strings.PyOctal(mode.value)) else None)
  {
    TmpfsSplit(b, size, mode);
    TmpfsLookups(b, SizeText(size), ModeText(mode));
  }

  /** The rendered tmpfs size, when set. */
  function SizeText(size: Option<int>): Option<string> {
    if size.Some? then Some(Strings.PyDecimal(size.value)) else None
  }

  /** The rendered tmpfs mode, when set. */
  function ModeText(mode: Option<int>): Option<string> {
    if mode.Some? then Some(Strings.PyOctal(mode.value)) else None
  }

  /** A part for `key` when there is a value, none otherwise. */
  function Piece(key: Key, v: Option<string>): seq<Field> {
    if v.Some? then [KV(key, v.value)] else []
  }

  lemma TmpfsSplit(b: MountBase, size: Option<int>, mode: Option<int>)
    ensures Fields(Tmpfs(b, size, mode))
      == BaseFields(b) + (Piece(TmpfsSizeKey, SizeText(size)) + Piece(TmpfsModeKey, ModeText(mode)))
  {
  }

  /** Lookups of the size and mode parts behind the base parts of a mount. */
  lemma TmpfsLookups(b: MountBase, size: Option<string>, mode: Option<string>)
    ensures
      var fs := BaseFields(b) + (Piece(TmpfsSizeKey, size) + Piece(TmpfsModeKey, mode));
      && Lookup(fs, TmpfsSizeKey) == size
      && Lookup(fs, TmpfsModeKey) == mode
  {
    var sz, md := Piece(TmpfsSizeKey, size), Piece(TmpfsModeKey, mode);
    BaseSkip(b, sz + md, TmpfsSizeKey);
    BaseSkip(b, sz + md, TmpfsModeKey);
    LookupFirst(sz, md, TmpfsSizeKey);
    LookupSkip(sz, md, TmpfsModeKey);
  }

  /** A lookup of a key the base parts never carry passes over them. */
  lemma BaseSkip(b: MountBase, rest: seq<Field>, key: Key)
    requires key != TypeKey && key != SourceKey && key != TargetKey
    ensures Lookup(BaseFields(b) + rest, key) == Lookup(rest, key)
  {
    LookupSkip(BaseFields(b), rest, key);
  }

  /**
   * Tmpfs size and mode are written whenever they are set, zero included,
   * and read back as the numbers they were: the size in decimal, the mode
   * in Python's `0o` octal form.
   */
  lemma TmpfsNumbersReadBack(b: MountBase, size: Option<int>, mode: Option<int>)
    requires CommaFree(Tmpfs(b, size, mode))
    ensures Decode(Render(Tmpfs(b, size, mode))).Some?
    ensures
      var fs := Decode(Render(Tmpfs(b, size, mode))).value;
      && (Lookup(fs, TmpfsSizeKey).Some? <==> size.Some?)
      && (Lookup(fs, TmpfsModeKey).Some? <==> mode.Some?)
      && (size.Some? ==> Strings.ParseDecimal(Lookup(fs, TmpfsSizeKey).value) == size.value)
      && (mode.Some? ==> Strings.ParseOctal(Lookup(fs, TmpfsModeKey).value) == mode.value)
  {
    DecodeRender(Tmpfs(b, size, mode));
    TmpfsFields(b, size, mode);
    if size.Some? {
      Strings.DecimalRoundTrip(size.value);
    }
    if mode.Some? {
      Strings.OctalRoundTrip(mode.value);
    }
  }

  // ---------------------------------------------------------------------------
  // Which values each key carries
  // ---------------------------------------------------------------------------

  /** The values of every part with key `key`, in order. */
  function Values(fs: seq<Field>, key: Key): seq<string>
    decreases |fs|
  {
    if |fs| == 0 then []
    else (if fs[0].KV? && fs[0].key == key then [fs[0].value] else []) + Values(fs[1..], key)
  }

  lemma ValuesOne(f: Field, key: Key)
    ensures Values([f], key) == if f.KV? && f.key == key then [f.value] else []
  {
    assert [f][1..] == [];
  }

  lemma {:induction false} ValuesAppend(a: seq<Field>, b: seq<Field>, key: Key)
    ensures Values(a + b, key) == Values(a, key) + Values(b, key)
    decreases |a|
  {
    if |a| == 0 {
      assert a + b == b;
    } else {
      var head := if a[0].KV? && a[0].key == key then [a[0].value] else [];
      assert (a + b)[0] == a[0];
      assert (a + b)[1..] == a[1..] + b;
      ValuesAppend(a[1..], b, key);
      Sequences.AppendAssoc(head, Values(a[1..], key), Values(b, key));
    }
  }

  /** A key no part carries has no values. */
  lemma {:induction false} ValuesNone(fs: seq<Field>, key: Key)
    requires forall i :: 0 <= i < |fs| ==> fs[i].Bare? || fs[i].key != key
    ensures Values(fs, key) == []
    decreases |fs|
  {
    if |fs| > 0 {
      ValuesNone(fs[1..], key);
    }
  }

  /** The first value of a key is the one a lookup finds. */
  lemma {:induction false} LookupValues(fs: seq<Field>, key: Key)
    ensures Lookup(fs, key) == if |Values(fs, key)| > 0 then Some(Values(fs, key)[0]) else None
    decreases |fs|
  {
    if |fs| > 0 {
      LookupValues(fs[1..], key);
    }
  }

  /** The `volume-opt` parts carry the options, in list order. */
  lemma {:induction false} OptValues(opts: seq<string>)
    ensures Values(OptFields(opts), VolumeOptKey) == opts
    decreases |opts|
  {
    if |opts| > 0 {
      assert OptFields(opts)[1..] == OptFields(opts[1..]);
      OptValues(opts[1..]);
    }
  }

  /**
   * The base parts: `type` first and once, `source` once when non-empty and
   * right after it, `target` once, and the `readonly` flag last exactly
   * when set.
   */
  lemma BaseParts(b: MountBase)
    ensures
      var fs := BaseFields(b);
      && fs[0] == KV(TypeKey, b.kind)
      && Values(fs, TypeKey) == [b.kind]
      && Values(fs, TargetKey) == [b.target]
      && Values(fs, SourceKey) == (if Truthy(b.source) then [b.source.value] else [])
      && (Truthy(b.source) ==> fs[1] == KV(SourceKey, b.source.value))
      && (fs[|fs| - 1] == Bare(ReadonlySwitch) <==> b.readonly)
  {
    BaseTypeValues(b);
    BaseTargetValues(b);
    BaseSourceValues(b);
    BasePositions(b);
  }

  lemma BaseTypeValues(b: MountBase)
    ensures Values(BaseFields(b), TypeKey) == [b.kind]
  {
    BaseKey(b, TypeKey);
    Collapse([b.kind]);
  }

  lemma BaseTargetValues(b: MountBase)
    ensures Values(BaseFields(b), TargetKey) == [b.target]
  {
    BaseKey(b, TargetKey);
    Collapse([b.target]);
  }

  lemma BaseSourceValues(b: MountBase)
    ensures Values(BaseFields(b), SourceKey) == (if Truthy(b.source) then [b.source.value] else [])
  {
    BaseKey(b, SourceKey);
    Collapse(Values(Piece(SourceKey, Given(b.source)), SourceKey));
  }

  /** The type part leads, the source part follows it when present, and `readonly` closes when set. */
  lemma BasePositions(b: MountBase)
    ensures
      var fs := BaseFields(b);
      && fs[0] == KV(TypeKey, b.kind)
      && (Truthy(b.source) ==> fs[1] == KV(SourceKey, b.source.value))
      && (fs[|fs| - 1] == Bare(ReadonlySwitch) <==> b.readonly)
  {
  }

  /** The readonly flag when set. */
  function ReadonlyPiece(readonly: bool): seq<Field> {
    if readonly then [Bare(ReadonlySwitch)] else []
  }

  /** The values of one key among the base parts, piece by piece. */
  lemma BaseKey(b: MountBase, key: Key)
    ensures
      var t, s, g := Piece(TypeKey, Some(b.kind)), Piece(SourceKey, Given(b.source)), Piece(TargetKey, Some(b.target));
      && BaseFields(b) == t + s + g + ReadonlyPiece(b.readonly)
      && Values(BaseFields(b), key)
         == Values(t, key) + Values(s, key) + Values(g, key) + []
      && Values(t, key) == (if key == TypeKey then [b.kind] else [])
      && Values(s, key) == (if key == SourceKey && Truthy(b.source) then [b.source.value] else [])
      && Values(g, key) == (if key == TargetKey then [b.target] else [])
  {
    var t, s, g := Piece(TypeKey, Some(b.kind)), Piece(SourceKey, Given(b.source)), Piece(TargetKey, Some(b.target));
    var r := ReadonlyPiece(b.readonly);
    assert BaseFields(b) == t + s + g + r;
    BasePartsAt(t, s, g, r, key);
    PieceValues(TypeKey, Some(b.kind), key);
    PieceValues(SourceKey, Given(b.source), key);
    PieceValues(TargetKey, Some(b.target), key);
    if b.readonly {
      ValuesOne(Bare(ReadonlySwitch), key);
    }
  }

  /** The values of one key across the four pieces of the base parts. */
  lemma BasePartsAt(t: seq<Field>, s: seq<Field>, g: seq<Field>, r: seq<Field>, key: Key)
    ensures Values(t + s + g + r, key) == Values(t, key) + Values(s, key) + Values(g, key) + Values(r, key)
  {
    ValuesAppend(t + s + g, r, key);
    ValuesAppend(t + s, g, key);
    ValuesAppend(t, s, key);
  }

  /** A key the base parts never carry has no values among them. */
  lemma BaseNone(b: MountBase, key: Key)
    requires key != TypeKey && key != SourceKey && key != TargetKey
    ensures Values(BaseFields(b), key) == []
  {
    ValuesNone(BaseFields(b), key);
  }

  /**
   * A bind mount is its base parts, then one `bind-propagation` part when
   * the mode is set and none otherwise.
   */
  lemma BindParts(b: MountBase, prop: Option<Propagation>)
    ensures
      var fs, n := Fields(Bind(b, prop)), |BaseFields(b)|;
      && n <= |fs| && fs[..n] == BaseFields(b)
      && |fs| == n + (if prop.Some? then 1 else 0)
      && Values(fs, BindPropagationKey) == (if prop.Some? then [PropagationName(prop.value)] else [])
  {
    var ef := ExtraFields(Bind(b, prop));
    assert Fields(Bind(b, prop))[..|BaseFields(b)|] == BaseFields(b);
    ValuesAppend(BaseFields(b), ef, BindPropagationKey);
    BaseNone(b, BindPropagationKey);
    if prop.Some? {
      ValuesOne(ef[0], BindPropagationKey);
    }
  }

  /**
   * A volume mount is its base parts, then `volume-driver` once when set,
   * `volume-subpath` once when set, the `volume-nocopy` flag exactly when
   * set, and last one `volume-opt` part per option in list order.
   */
  lemma VolumeParts(b: MountBase, driver: Option<string>, subpath: Option<string>, nocopy: bool, opts: seq<string>)
    ensures
      var fs := Fields(Volume(b, driver, subpath, nocopy, opts));
      && |BaseFields(b)| + |opts| <= |fs| && fs[..|BaseFields(b)|] == BaseFields(b)
      && fs[|fs| - |opts|..] == OptFields(opts)
      && Values(fs, VolumeDriverKey) == (if Truthy(driver) then [driver.value] else [])
      && Values(fs, VolumeSubpathKey) == (if Truthy(subpath) then [subpath.value] else [])
      && Values(fs, VolumeOptKey) == opts
      && (Bare(NoCopySwitch) in fs <==> nocopy)
  {
    VolumeEnds(b, driver, subpath, nocopy, opts);
    VolumeDriver(b, driver, subpath, nocopy, opts);
    VolumeSubpath(b, driver, subpath, nocopy, opts);
    VolumeOpts(b, driver, subpath, nocopy, opts);
    VolumeNoCopy(b, driver, subpath, nocopy, opts);
  }

  /**
   * Where a part of a volume mount belongs: the base parts, then the driver,
   * the subpath, the `volume-nocopy` flag, and the options last.
   */
  function VolumeRank(f: Field): nat {
    match f
    case KV(key, _) =>
      (match key
       case VolumeDriverKey => 1
       case VolumeSubpathKey => 2
       case VolumeOptKey => 4
       case TypeKey => 0
       case SourceKey => 0
       case TargetKey => 0
       case _ => 5)
    case Bare(sw) => if sw == NoCopySwitch then 3 else 0
  }

  /** The parts of `fs` never go back to an earlier place. */
  predicate InVolumeOrder(fs: seq<Field>) {
    forall i, j :: 0 <= i < j < |fs| ==> VolumeRank(fs[i]) <= VolumeRank(fs[j])
  }

  predicate RankAtMost(fs: seq<Field>, r: nat) {
    forall i :: 0 <= i < |fs| ==> VolumeRank(fs[i]) <= r
  }

  predicate RankAtLeast(fs: seq<Field>, r: nat) {
    forall i :: 0 <= i < |fs| ==> VolumeRank(fs[i]) >= r
  }

  /**
   * A volume mount renders its base parts, then the driver, the subpath,
   * the `volume-nocopy` flag and the options, in this order.
   */
  lemma VolumeOrder(b: MountBase, driver: Option<string>, subpath: Option<string>, nocopy: bool, opts: seq<string>)
    ensures InVolumeOrder(Fields(Volume(b, driver, subpath, nocopy, opts)))
  {
    var d, s := Piece(VolumeDriverKey, Given(driver)), Piece(VolumeSubpathKey, Given(subpath));
    var f, o := Flag(nocopy), OptFields(opts);
    VolumeSplit(b, driver, subpath, nocopy, opts);
    PieceRank(VolumeDriverKey, Given(driver), 1);
    PieceRank(VolumeSubpathKey, Given(subpath), 2);
    FlagRank(nocopy);
    OptRanks(opts);
    ExtrasOrder(d, s, f, o);
    BaseRanks(b);
    OrderAppend(BaseFields(b), d + s + f + o, 0, 4);
  }

  /** The driver, subpath, flag and option runs, each in its own place, are in order together. */
  lemma ExtrasOrder(d: seq<Field>, s: seq<Field>, f: seq<Field>, o: seq<Field>)
    requires InVolumeOrder(d) && RankAtLeast(d, 1) && RankAtMost(d, 1)
    requires InVolumeOrder(s) && RankAtLeast(s, 2) && RankAtMost(s, 2)
    requires InVolumeOrder(f) && RankAtLeast(f, 3) && RankAtMost(f, 3)
    requires InVolumeOrder(o) && RankAtLeast(o, 4) && RankAtMost(o, 4)
    ensures InVolumeOrder(d + s + f + o) && RankAtMost(d + s + f + o, 4)
  {
    OrderAppend(d, s, 1, 2);
    OrderAppend(d + s, f, 2, 3);
    OrderAppend(d + s + f, o, 3, 4);
  }

  /** A part for a key, when present, sits in that key's place. */
  lemma PieceRank(key: Key, v: Option<string>, r: nat)
    requires VolumeRank(KV(key, "")) == r
    ensures InVolumeOrder(Piece(key, v)) && RankAtLeast(Piece(key, v), r) && RankAtMost(Piece(key, v), r)
  {
    if v.Some? {
      assert VolumeRank(KV(key, v.value)) == r;
    }
  }

  /** The `volume-nocopy` flag, when set, sits in the third place. */
  lemma FlagRank(nocopy: bool)
    ensures InVolumeOrder(Flag(nocopy)) && RankAtLeast(Flag(nocopy), 3) && RankAtMost(Flag(nocopy), 3)
  {
  }

  /** Two runs in order, the first ranked no higher than the second, are in order together. */
  lemma OrderAppend(a: seq<Field>, c: seq<Field>, r: nat, top: nat)
    requires InVolumeOrder(a) && InVolumeOrder(c)
    requires RankAtMost(a, r) && RankAtLeast(c, r) && RankAtMost(c, top) && r <= top
    ensures InVolumeOrder(a + c) && RankAtMost(a + c, top)
  {
    forall i, j | 0 <= i < j < |a + c|
      ensures VolumeRank((a + c)[i]) <= VolumeRank((a + c)[j])
    {
      if j < |a| {
        assert (a + c)[i] == a[i] && (a + c)[j] == a[j];
      } else if i < |a| {
        assert (a + c)[i] == a[i] && (a + c)[j] == c[j - |a|];
      } else {
        assert (a + c)[i] == c[i - |a|] && (a + c)[j] == c[j - |a|];
      }
    }
    forall i | 0 <= i < |a + c|
      ensures VolumeRank((a + c)[i]) <= top
    {
      if i < |a| {
        assert (a + c)[i] == a[i];
      } else {
        assert (a + c)[i] == c[i - |a|];
      }
    }
  }

  /** The base parts all sit in the first place. */
  lemma BaseRanks(b: MountBase)
    ensures InVolumeOrder(BaseFields(b)) && RankAtMost(BaseFields(b), 0)
  {
  }

  /** The option parts all sit in the last place. */
  lemma OptRanks(opts: seq<string>)
    ensures InVolumeOrder(OptFields(opts)) && RankAtLeast(OptFields(opts), 4) && RankAtMost(OptFields(opts), 4)
  {
    assert forall i :: 0 <= i < |OptFields(opts)| ==> OptFields(opts)[i] == KV(VolumeOptKey, opts[i]);
  }

  /** An optional string when it is truthy, none otherwise. */
  function Given(o: Option<string>): Option<string> {
    if Truthy(o) then o else None
  }

  /** The `volume-nocopy` flag when set. */
  function Flag(nocopy: bool): seq<Field> {
    if nocopy then [Bare(NoCopySwitch)] else []
  }

  lemma VolumeSplit(b: MountBase, driver: Option<string>, subpath: Option<string>, nocopy: bool, opts: seq<string>)
    ensures Fields(Volume(b, driver, subpath, nocopy, opts))
      == BaseFields(b) + (Piece(VolumeDriverKey, Given(driver)) + Piece(VolumeSubpathKey, Given(subpath))
                          + Flag(nocopy) + OptFields(opts))
  {
  }

  lemma VolumeEnds(b: MountBase, driver: Option<string>, subpath: Option<string>, nocopy: bool, opts: seq<string>)
    ensures
      var fs := Fields(Volume(b, driver, subpath, nocopy, opts));
      && |BaseFields(b)| + |opts| <= |fs| && fs[..|BaseFields(b)|] == BaseFields(b)
      && fs[|fs| - |opts|..] == OptFields(opts)
  {
    var d, s := Piece(VolumeDriverKey, Given(driver)), Piece(VolumeSubpathKey, Given(subpath));
    VolumeSplit(b, driver, subpath, nocopy, opts);
    Ends(BaseFields(b), d + s + Flag(nocopy), OptFields(opts));
  }

  /** The ends of `p + (m + o)`. */
  lemma Ends(p: seq<Field>, m: seq<Field>, o: seq<Field>)
    ensures var fs := p + (m + o);
      && fs[..|p|] == p && fs[|fs| - |o|..] == o
  {
  }

  lemma VolumeDriver(b: MountBase, driver: Option<string>, subpath: Option<string>, nocopy: bool, opts: seq<string>)
    ensures Values(Fields(Volume(b, driver, subpath, nocopy, opts)), VolumeDriverKey)
      == (if Truthy(driver) then [driver.value] else [])
  {
    var d, s := Piece(VolumeDriverKey, Given(driver)), Piece(VolumeSubpathKey, Given(subpath));
    VolumeSplit(b, driver, subpath, nocopy, opts);
    VolumeValues(b, d, s, Flag(nocopy), OptFields(opts), VolumeDriverKey);
    PieceValues(VolumeDriverKey, Given(driver), VolumeDriverKey);
    PieceValues(VolumeSubpathKey, Given(subpath), VolumeDriverKey);
    FlagValues(nocopy, VolumeDriverKey);
    ValuesNone(OptFields(opts), VolumeDriverKey);
    Collapse(Values(d, VolumeDriverKey));
  }

  lemma VolumeSubpath(b: MountBase, driver: Option<string>, subpath: Option<string>, nocopy: bool, opts: seq<string>)
    ensures Values(Fields(Volume(b, driver, subpath, nocopy, opts)), VolumeSubpathKey)
      == (if Truthy(subpath) then [subpath.value] else [])
  {
    var d, s := Piece(VolumeDriverKey, Given(driver)), Piece(VolumeSubpathKey, Given(subpath));
    VolumeSplit(b, driver, subpath, nocopy, opts);
    VolumeValues(b, d, s, Flag(nocopy), OptFields(opts), VolumeSubpathKey);
    PieceValues(VolumeDriverKey, Given(driver), VolumeSubpathKey);
    PieceValues(VolumeSubpathKey, Given(subpath), VolumeSubpathKey);
    FlagValues(nocopy, VolumeSubpathKey);
    ValuesNone(OptFields(opts), VolumeSubpathKey);
    Collapse(Values(s, VolumeSubpathKey));
  }

  lemma VolumeOpts(b: MountBase, driver: Option<string>, subpath: Option<string>, nocopy: bool, opts: seq<string>)
    ensures Values(Fields(Volume(b, driver, subpath, nocopy, opts)), VolumeOptKey) == opts
  {
    var d, s := Piece(VolumeDriverKey, Given(driver)), Piece(VolumeSubpathKey, Given(subpath));
    VolumeSplit(b, driver, subpath, nocopy, opts);
    VolumeValues(b, d, s, Flag(nocopy), OptFields(opts), VolumeOptKey);
    PieceValues(VolumeDriverKey, Given(driver), VolumeOptKey);
    PieceValues(VolumeSubpathKey, Given(subpath), VolumeOptKey);
    FlagValues(nocopy, VolumeOptKey);
    OptValues(opts);
    Collapse(opts);
  }

  lemma VolumeNoCopy(b: MountBase, driver: Option<string>, subpath: Option<string>, nocopy: bool, opts: seq<string>)
    ensures Bare(NoCopySwitch) in Fields(Volume(b, driver, subpath, nocopy, opts)) <==> nocopy
  {
    var d, s := Piece(VolumeDriverKey, Given(driver)), Piece(VolumeSubpathKey, Given(subpath));
    VolumeSplit(b, driver, subpath, nocopy, opts);
    NoCopyNotIn(BaseFields(b), d, s, OptFields(opts));
    assert Bare(NoCopySwitch) in Flag(nocopy) <==> nocopy;
    InPieces(Bare(NoCopySwitch), BaseFields(b), d, s, Flag(nocopy), OptFields(opts));
  }

  /** The values a single optional part carries. */
  lemma PieceValues(key: Key, v: Option<string>, k: Key)
    ensures Values(Piece(key, v), k) == if key == k && v.Some? then [v.value] else []
  {
    if v.Some? {
      ValuesOne(KV(key, v.value), k);
    }
  }

  /** The flag carries no values. */
  lemma FlagValues(nocopy: bool, k: Key)
    ensures Values(Flag(nocopy), k) == []
  {
    if nocopy {
      ValuesOne(Bare(NoCopySwitch), k);
    }
  }

  /** Empty pieces around one sequence leave it as it is. */
  lemma Collapse<T>(x: seq<T>)
    ensures [] + x + [] + [] == x && x + [] + [] + [] == x && [] + [] + [] + x == x
  {
  }

  /** The pieces around the flag carry no `volume-nocopy`. */
  lemma NoCopyNotIn(base: seq<Field>, d: seq<Field>, s: seq<Field>, o: seq<Field>)
    requires forall i :: 0 <= i < |base| ==> base[i] != Bare(NoCopySwitch)
    requires forall i :: 0 <= i < |d| ==> d[i].KV?
    requires forall i :: 0 <= i < |s| ==> s[i].KV?
    requires forall i :: 0 <= i < |o| ==> o[i].KV?
    ensures Bare(NoCopySwitch) !in base && Bare(NoCopySwitch) !in d
    ensures Bare(NoCopySwitch) !in s && Bare(NoCopySwitch) !in o
  {
  }

  /** Membership in the base followed by four pieces. */
  lemma InPieces<T>(x: T, base: seq<T>, d: seq<T>, s: seq<T>, c: seq<T>, o: seq<T>)
    ensures x in base + (d + s + c + o) <==> x in base || x in d || x in s || x in c || x in o
  {
  }

  /** The values of one volume key across the base and the four extra pieces. */
  lemma VolumeValues(b: MountBase, d: seq<Field>, s: seq<Field>, c: seq<Field>, o: seq<Field>, key: Key)
    requires key == VolumeDriverKey || key == VolumeSubpathKey || key == VolumeOptKey
    ensures Values(BaseFields(b) + (d + s + c + o), key) == Values(d, key) + Values(s, key) + Values(c, key) + Values(o, key)
  {
    ValuesAppend(BaseFields(b), d + s + c + o, key);
    BaseNone(b, key);
    BasePartsAt(d, s, c, o, key);
  }

  // ---------------------------------------------------------------------------
  // Host paths, the working directory and the argument list
  // ---------------------------------------------------------------------------

  /**
   * `BindMount.from_path`: a bind mount of the resolved path, whose source
   * is the native spelling and whose target, unless given, is the posix
   * spelling.
   */
  function FromPath(path: string, readonly: bool, target: Option<string>, resolve: string -> Resolved): MountPoint {
    var abs := resolve(path);
    Bind(MountBase("bind", if target.Some? then target.value else abs.posix, Some(abs.native), readonly), None)
  }

  /** `_format_mount`: a host path becomes a default bind mount; a string passes through verbatim. */
  function FormatMount(m: Mount, resolve: string -> Resolved): string {
    match m
    case Point(p) => Render(p)
    case Raw(s) => s
    case HostPath(p) => Render(FromPath(p, false, None, resolve))
  }

  /** The parts of the default bind mount of a host path: type, source when non-empty, target. */
  lemma DefaultBindFields(path: string, resolve: string -> Resolved)
    ensures
      var abs := resolve(path);
      Fields(FromPath(path, false, None, resolve))
        == [KV(TypeKey, "bind")]
           + (if |abs.native| > 0 then [KV(SourceKey, abs.native)] else [])
           + [KV(TargetKey, abs.posix)]
  {
  }

  /** The parts of the default bind mount of a host path. */
  lemma HostPathFields(path: string, resolve: string -> Resolved)
    ensures
      var fs, abs := Fields(FromPath(path, false, None, resolve)), resolve(path);
      && Lookup(fs, TypeKey) == Some("bind")
      && Lookup(fs, TargetKey) == Some(abs.posix)
      && (|abs.native| > 0 <==> Lookup(fs, SourceKey) == Some(abs.native))
      && Bare(ReadonlySwitch) !in fs
      && Lookup(fs, BindPropagationKey).None?
  {
    var abs := resolve(path);
    DefaultBindFields(path, resolve);
    var tail := [KV(TargetKey, abs.posix)];
    var src := if |abs.native| > 0 then [KV(SourceKey, abs.native)] else [];
    BindLookups(src, tail, abs.posix);
  }

  /** The default bind mount of a host path has no comma in its values exactly when the resolved path has none. */
  lemma HostPathCommaFree(path: string, resolve: string -> Resolved)
    ensures
      var abs := resolve(path);
      CommaFree(FromPath(path, false, None, resolve)) <==> ',' !in abs.posix && (|abs.native| > 0 ==> ',' !in abs.native)
  {
    var abs := resolve(path);
    DefaultBindFields(path, resolve);
    var fs := Fields(FromPath(path, false, None, resolve));
    assert fs[|fs| - 1] == KV(TargetKey, abs.posix);
    if |abs.native| > 0 {
      assert fs[1] == KV(SourceKey, abs.native);
    }
  }

  /** Lookups in `type=bind`, the optional source parts `src`, then the target `t`. */
  lemma BindLookups(src: seq<Field>, tail: seq<Field>, t: string)
    requires tail == [KV(TargetKey, t)]
    requires forall i :: 0 <= i < |src| ==> src[i].KV? && src[i].key == SourceKey
    ensures
      var fs := [KV(TypeKey, "bind")] + src + tail;
      && Lookup(fs, TypeKey) == Some("bind")
      && Lookup(fs, TargetKey) == Some(t)
      && Lookup(fs, SourceKey) == Lookup(src, SourceKey)
      && Lookup(fs, BindPropagationKey).None?
  {
    BindKeyAt(src, tail, t, TypeKey);
    BindKeyAt(src, tail, t, TargetKey);
    BindKeyAt(src, tail, t, BindPropagationKey);
    BindSourceAt(src, tail, t);
  }

  /** The type, target and propagation of a bind's parts, one key at a time. */
  lemma BindKeyAt(src: seq<Field>, tail: seq<Field>, t: string, key: Key)
    requires tail == [KV(TargetKey, t)]
    requires forall i :: 0 <= i < |src| ==> src[i].KV? && src[i].key == SourceKey
    requires key != SourceKey
    ensures Lookup([KV(TypeKey, "bind")] + src + tail, key)
      == if key == TypeKey then Some("bind") else if key == TargetKey then Some(t) else None
  {
    var h := KV(TypeKey, "bind");
    Sequences.AppendAssoc([h], src, tail);
    LookupHead(h, src + tail, key);
    if key != TypeKey {
      LookupSkip(src, tail, key);
      LookupHead(KV(TargetKey, t), [], key);
    }
  }

  /** The source of a bind's parts is the one its source part carries. */
  lemma BindSourceAt(src: seq<Field>, tail: seq<Field>, t: string)
    requires tail == [KV(TargetKey, t)]
    requires forall i :: 0 <= i < |src| ==> src[i].KV? && src[i].key == SourceKey
    ensures Lookup([KV(TypeKey, "bind")] + src + tail, SourceKey) == Lookup(src, SourceKey)
  {
    var h := KV(TypeKey, "bind");
    Sequences.AppendAssoc([h], src, tail);
    LookupHead(h, src + tail, SourceKey);
    LookupFirst(src, tail, SourceKey);
  }

  /** Looking a key up past a leading part. */
  lemma LookupHead(h: Field, rest: seq<Field>, key: Key)
    ensures Lookup([h] + rest, key) == if h.KV? && h.key == key then Some(h.value) else Lookup(rest, key)
  {
    assert ([h] + rest)[0] == h;
    assert ([h] + rest)[1..] == rest;
  }

  /** A lookup that finds its key in the first part of a concatenation ignores the rest. */
  lemma {:induction false} LookupFirst(a: seq<Field>, b: seq<Field>, key: Key)
    requires forall i :: 0 <= i < |a| ==> a[i].KV? && a[i].key == key
    requires forall i :: 0 <= i < |b| ==> b[i].Bare? || b[i].key != key
    ensures Lookup(a + b, key) == Lookup(a, key)
  {
    if |a| == 0 {
      assert a + b == b;
    } else {
      assert (a + b)[0] == a[0];
    }
  }

  /**
   * A host path mount whose resolved path holds no comma reads back as
   * exactly the parts of the default bind mount (see `HostPathFields`).
   */
  lemma HostPathMount(path: string, resolve: string -> Resolved)
    requires ',' !in resolve(path).native && ',' !in resolve(path).posix
    ensures Decode(FormatMount(HostPath(path), resolve)) == Some(Fields(FromPath(path, false, None, resolve)))
  {
    var m := FromPath(path, false, None, resolve);
    HostPathCommaFree(path, resolve);
    DecodeRender(m);
  }

  /** Raised when no working directory can be chosen. */
  datatype ContainerError = WorkdirRequired

  /**
   * `_get_effective_workdir`: a non-empty explicit working directory wins;
   * otherwise exactly one workspace folder gives the target of its bind
   * mount; zero or several folders are a `ValueError`.
   */
  function EffectiveWorkdir(workdir: Option<string>, folders: seq<string>, resolve: string -> Resolved): (r: Result<string, ContainerError>)
    ensures Truthy(workdir) ==> r == Ok(workdir.value)
    ensures !Truthy(workdir) ==> (r.Ok? <==> |folders| == 1)
    ensures !Truthy(workdir) && |folders| == 1 ==> r.value == resolve(folders[0]).posix
  {
    if Truthy(workdir) then Ok(workdir.value)
    else if |folders| == 1 then Ok(FromPath(folders[0], false, None, resolve).base.target)
    else Err(WorkdirRequired)
  }

  /** The configuration of a container server that the argument list depends on. */
  datatype ContainerSpec = ContainerSpec(
    image: string,
    workdir: Option<string>,
    mounts: seq<Mount>,
    name: Option<string>,
    extraArgs: seq<string>)

  /** One `--mount` pair per specification, in order. */
  function MountFlags(specs: seq<string>): (r: seq<string>)
    ensures |r| == 2 * |specs|
    ensures forall i :: 0 <= i < |specs| ==> r[2 * i] == "--mount" && r[2 * i + 1] == specs[i]
    decreases |specs|
  {
    if |specs| == 0 then []
    else
      var rest := MountFlags(specs[1..]);
      var r := ["--mount", specs[0]] + rest;
      assert forall i :: 1 <= i < |specs| ==> r[2 * i] == "--mount" && r[2 * i + 1] == specs[i] by {
        forall i | 1 <= i < |specs|
          ensures r[2 * i] == "--mount" && r[2 * i + 1] == specs[i]
        {
          assert specs[i] == specs[1..][i - 1];
          assert r[2 * i] == rest[2 * (i - 1)] && r[2 * i + 1] == rest[2 * (i - 1) + 1];
        }
      }
      r
  }

  /** The user's mounts, then a default bind mount for every workspace folder, each formatted. */
  function MountSpecs(c: ContainerSpec, folders: seq<string>, resolve: string -> Resolved): (r: seq<string>)
    ensures |r| == |c.mounts| + |folders|
    ensures forall i :: 0 <= i < |r| ==> r[i] == FormatMount(AllMounts(c, folders)[i], resolve)
  {
    var ms := AllMounts(c, folders);
    seq(|ms|, i requires 0 <= i < |ms| => FormatMount(ms[i], resolve))
  }

  /** The user's mounts, then a host path mount per workspace folder. */
  function AllMounts(c: ContainerSpec, folders: seq<string>): (r: seq<Mount>)
    ensures |r| == |c.mounts| + |folders|
    ensures forall i :: 0 <= i < |c.mounts| ==> r[i] == c.mounts[i]
    ensures forall j :: 0 <= j < |folders| ==> r[|c.mounts| + j] == HostPath(folders[j])
  {
    c.mounts + seq(|folders|, j requires 0 <= j < |folders| => HostPath(folders[j]))
  }

  /** `--name X` when a container name is set, nothing otherwise. */
  function NameArgs(name: Option<string>): seq<string> {
    if Truthy(name) then ["--name", name.value] else []
  }

  /** The prefix every argument list starts with. */
  const RunPrefix: seq<string> := ["run", "-i", "--rm"]

  /** The sections of an argument list, recovered by position. */
  lemma Sections(p: seq<string>, n: seq<string>, w: seq<string>, f: seq<string>, e: seq<string>, image: string)
    ensures
      var a := p + n + w + f + e + [image];
      var i, j, k, l := |p|, |p| + |n|, |p| + |n| + |w|, |p| + |n| + |w| + |f|;
      && |a| == l + |e| + 1
      && a[..i] == p && a[i..j] == n && a[j..k] == w && a[k..l] == f
      && a[l..|a| - 1] == e && a[|a| - 1] == image
  {
    var a := p + n + w + f + e + [image];
    var i, j, k, l := |p|, |p| + |n|, |p| + |n| + |w|, |p| + |n| + |w| + |f|;
    assert a[..i] == p;
    assert a[i..j] == n;
    assert a[j..k] == w;
    assert a[k..l] == f;
    assert a[l..|a| - 1] == e;
  }

  /**
   * The argument list around a chosen working directory `workdir` and the
   * formatted mounts `specs`: `run -i --rm`, then `--name X` when a name is
   * set, then `--workdir W`, then one `--mount` pair per specification, then
   * the extra arguments, and the image last.
   */
  function Layout(c: ContainerSpec, workdir: string, specs: seq<string>): (a: seq<string>)
    ensures
      var k, m := |NameArgs(c.name)|, 2 * |specs|;
      && |a| == 6 + k + m + |c.extraArgs|
      && a[..3] == RunPrefix
      && a[3..3 + k] == NameArgs(c.name)
      && a[3 + k..5 + k] == ["--workdir", workdir]
      && a[5 + k..5 + k + m] == MountFlags(specs)
      && a[5 + k + m..|a| - 1] == c.extraArgs
      && a[|a| - 1] == c.image
  {
    Sections(RunPrefix, NameArgs(c.name), ["--workdir", workdir], MountFlags(specs), c.extraArgs, c.image);
    RunPrefix + NameArgs(c.name) + ["--workdir", workdir] + MountFlags(specs) + c.extraArgs + [c.image]
  }

  /**
   * `format_args`: the argument list of `Layout` for the effective working
   * directory and the user's mounts followed by one default bind mount per
   * workspace folder. It fails exactly when no working directory can be
   * chosen.
   */
  function FormatArgs(c: ContainerSpec, folders: seq<string>, resolve: string -> Resolved): (r: Result<seq<string>, ContainerError>)
    ensures r.Ok? <==> EffectiveWorkdir(c.workdir, folders, resolve).Ok?
    ensures r.Ok? ==> r.value == Layout(c, EffectiveWorkdir(c.workdir, folders, resolve).value, MountSpecs(c, folders, resolve))
  {
    match EffectiveWorkdir(c.workdir, folders, resolve)
    case Err(e) => Err(e)
    case Ok(w) => Ok(Layout(c, w, MountSpecs(c, folders, resolve)))
  }

  /**
   * The `i`-th specification is the value of the `i`-th `--mount` pair of an
   * argument list that holds the pairs from position `lo` on.
   */
  lemma FlagAt(a: seq<string>, lo: nat, specs: seq<string>, i: nat)
    requires lo + 2 * |specs| <= |a| && a[lo..lo + 2 * |specs|] == MountFlags(specs)
    requires i < |specs|
    ensures a[lo + 2 * i] == "--mount" && a[lo + 2 * i + 1] == specs[i]
  {
    FlagName(a, lo, specs, i);
    FlagValue(a, lo, specs, i);
  }

  lemma FlagName(a: seq<string>, lo: nat, specs: seq<string>, i: nat)
    requires lo + 2 * |specs| <= |a| && a[lo..lo + 2 * |specs|] == MountFlags(specs)
    requires i < |specs|
    ensures a[lo + 2 * i] == "--mount"
  {
    var flags := MountFlags(specs);
    assert flags[2 * i] == "--mount";
    SliceAt(a, lo, flags, 2 * i);
  }

  lemma FlagValue(a: seq<string>, lo: nat, specs: seq<string>, i: nat)
    requires lo + 2 * |specs| <= |a| && a[lo..lo + 2 * |specs|] == MountFlags(specs)
    requires i < |specs|
    ensures a[lo + 2 * i + 1] == specs[i]
  {
    var flags := MountFlags(specs);
    assert flags[2 * i + 1] == specs[i];
    SliceAt(a, lo, flags, 2 * i + 1);
  }

  /** An element of a slice is the element of the whole at the shifted position. */
  lemma SliceAt(a: seq<string>, lo: nat, s: seq<string>, j: nat)
    requires lo + |s| <= |a| && a[lo..lo + |s|] == s
    requires j < |s|
    ensures a[lo + j] == s[j]
  {
    assert a[lo..lo + |s|][j] == a[lo + j];
  }

  /** `--workdir` is followed by the chosen working directory. */
  lemma LayoutWorkdir(c: ContainerSpec, workdir: string, specs: seq<string>)
    ensures
      var a, k := Layout(c, workdir, specs), |NameArgs(c.name)|;
      a[3 + k] == "--workdir" && a[4 + k] == workdir
  {
    var a, k := Layout(c, workdir, specs), |NameArgs(c.name)|;
    SliceAt(a, 3 + k, ["--workdir", workdir], 0);
    SliceAt(a, 3 + k, ["--workdir", workdir], 1);
  }

  /** The `i`-th `--mount` pair carries the `i`-th specification. */
  lemma LayoutMount(c: ContainerSpec, workdir: string, specs: seq<string>, i: nat)
    requires i < |specs|
    ensures
      var a, k := Layout(c, workdir, specs), |NameArgs(c.name)|;
      a[5 + k + 2 * i] == "--mount" && a[6 + k + 2 * i] == specs[i]
  {
    FlagAt(Layout(c, workdir, specs), 5 + |NameArgs(c.name)|, specs, i);
  }

  /** A single workspace folder's mount comes right after the user's mounts. */
  lemma FolderSpec(c: ContainerSpec, folder: string, resolve: string -> Resolved)
    ensures |MountSpecs(c, [folder], resolve)| == |c.mounts| + 1
    ensures MountSpecs(c, [folder], resolve)[|c.mounts|] == Render(FromPath(folder, false, None, resolve))
  {
    assert AllMounts(c, [folder])[|c.mounts|] == HostPath(folder);
  }

  /**
   * With no explicit working directory and one workspace folder, the
   * container starts in the target the folder is mounted on: the
   * `--workdir` value is the `target` part of the last `--mount`, which is
   * the folder's default bind mount (read back by `HostPathMount`).
   */
  lemma WorkdirIsFolderTarget(c: ContainerSpec, folder: string, resolve: string -> Resolved)
    requires !Truthy(c.workdir)
    ensures FormatArgs(c, [folder], resolve).Ok?
    ensures
      var a, k, i := FormatArgs(c, [folder], resolve).value, |NameArgs(c.name)|, |c.mounts|;
      var m := FromPath(folder, false, None, resolve);
      && a[3 + k] == "--workdir"
      && a[5 + k + 2 * i] == "--mount"
      && a[6 + k + 2 * i] == Render(m)
      && Lookup(Fields(m), TargetKey) == Some(a[4 + k])
  {
    var specs := MountSpecs(c, [folder], resolve);
    OneFolderArgs(c, folder, resolve);
    FolderSpec(c, folder, resolve);
    FolderLayout(c, resolve(folder).posix, specs, Render(FromPath(folder, false, None, resolve)));
    HostPathFields(folder, resolve);
  }

  /** The workdir flag and the last mount flag of a layout whose last spec is given. */
  lemma FolderLayout(c: ContainerSpec, workdir: string, specs: seq<string>, last: string)
    requires |specs| == |c.mounts| + 1 && specs[|c.mounts|] == last
    ensures
      var a, k, i := Layout(c, workdir, specs), |NameArgs(c.name)|, |c.mounts|;
      && a[3 + k] == "--workdir" && a[4 + k] == workdir
      && a[5 + k + 2 * i] == "--mount" && a[6 + k + 2 * i] == last
  {
    LayoutWorkdir(c, workdir, specs);
    LayoutMount(c, workdir, specs, |c.mounts|);
  }

  /** With no explicit working directory, one folder gives the layout around its posix path. */
  lemma OneFolderArgs(c: ContainerSpec, folder: string, resolve: string -> Resolved)
    requires !Truthy(c.workdir)
    ensures FormatArgs(c, [folder], resolve) == Ok(Layout(c, resolve(folder).posix, MountSpecs(c, [folder], resolve)))
  {
  }
}
