/** Command-line parsing into the configuration: a loop over `-name value` pairs that skips the
    value it has consumed. */
module CommandLine {
  import opened Machine
  import opened Config

  type int32 = x: int | -0x8000_0000 <= x < 0x8000_0000

  /** What the C library's `atoi` yields for a number that does not fit an `int`; the C standard
      leaves it open. */
  type Narrowing = int -> int32

  // ---------------------------------------------------------------- numbers

  predicate IsDigit(c: char) {
    '0' <= c <= '9'
  }

  predicate IsSpace(c: char) {
    c in " \t\n\r\U{0B}\U{0C}"
  }

  function SkipSpace(s: string): string {
    if s != [] && IsSpace(s[0]) then SkipSpace(s[1..]) else s
  }

  /** The number spelled by the leading digits of `s`, continuing from `n`. */
  function LeadingDigits(s: string, n: nat): nat {
    if s == [] || !IsDigit(s[0]) then n else LeadingDigits(s[1..], 10 * n + (s[0] - '0') as nat)
  }

  function Atoi(s: string, narrow: Narrowing): int32 {
    var t := SkipSpace(s);
    var v := if t != [] && t[0] == '-' then -(LeadingDigits(t[1..], 0) as int)
             else if t != [] && t[0] == '+' then LeadingDigits(t[1..], 0)
             else LeadingDigits(t, 0);
    if -0x8000_0000 <= v < 0x8000_0000 then v else narrow(v)
  }

  function Decimal(n: nat): (s: string)
    ensures s != [] && forall c | c in s :: IsDigit(c)
  {
    var d := [(n % 10) as char + '0'];
    if n < 10 then d else Decimal(n / 10) + d
  }

  lemma {:induction false} LeadingDigitsAppend(a: string, b: string, n: nat)
    requires forall c | c in a :: IsDigit(c)
    ensures LeadingDigits(a + b, n) == LeadingDigits(b, LeadingDigits(a, n))
  {
    if a == [] {
      assert a + b == b;
    } else {
      assert a[0] in a;
      assert (a + b)[1..] == a[1..] + b;
      LeadingDigitsAppend(a[1..], b, 10 * n + (a[0] - '0') as nat);
    }
  }

  lemma {:induction false} LeadingDigitsOfDecimal(n: nat)
    ensures LeadingDigits(Decimal(n), 0) == n
  {
    var d := [(n % 10) as char + '0'];
    assert forall m: nat :: LeadingDigits(d, m) == LeadingDigits(d[1..], 10 * m + n % 10);
    if n >= 10 {
      LeadingDigitsOfDecimal(n / 10);
      LeadingDigitsAppend(Decimal(n / 10), d, 0);
    }
  }

  /** Numbers in `int` range survive printing and parsing. */
  lemma AtoiOfDecimal(n: nat, narrow: Narrowing)
    requires n < 0x8000_0000
    ensures Atoi(Decimal(n), narrow) == n
  {
    LeadingDigitsOfDecimal(n);
    assert Decimal(n)[0] in Decimal(n);
  }

  /** The number that a string of digits spells, read from its end. */
  function Spelled(digits: string): nat
    requires forall c | c in digits :: IsDigit(c)
  {
    if digits == [] then 0
    else
      var last := digits[|digits| - 1];
      assert last in digits && IsDigit(last);
      10 * Spelled(digits[..|digits| - 1]) + (last - '0') as nat
  }

  lemma {:induction false} LeadingDigitsSpell(digits: string)
    requires forall c | c in digits :: IsDigit(c)
    ensures LeadingDigits(digits, 0) == Spelled(digits)
  {
    if digits != [] {
      var front, last := digits[..|digits| - 1], [digits[|digits| - 1]];
      LeadingDigitsSpell(front);
      LeadingDigitsAppend(front, last, 0);
      assert digits == front + last && last[1..] == [];
    }
  }

  /** And nothing after them counts. */
  lemma LeadingDigitsStop(digits: string, rest: string)
    requires (forall c | c in digits :: IsDigit(c)) && (rest != "" ==> !IsDigit(rest[0]))
    ensures LeadingDigits(digits + rest, 0) == Spelled(digits)
  {
    LeadingDigitsAppend(digits, rest, 0);
    LeadingDigitsSpell(digits);
  }

  /** White space, a sign, digits, and a rest that is not read. */
  datatype Text = Text(blanks: string, sign: string, digits: string, rest: string)
  {
    ghost predicate Valid() {
      && (forall c | c in blanks :: IsSpace(c)) && (forall c | c in digits :: IsDigit(c))
      && sign in {"", "-", "+"}
      && (rest != "" ==> !IsDigit(rest[0]))
      && (rest != "" && sign == "" && digits == "" ==> !IsSpace(rest[0]) && rest[0] != '-' && rest[0] != '+')
    }

    function Value(): int
      requires Valid()
    {
      if sign == "-" then -(Spelled(digits) as int) else Spelled(digits)
    }
  }

  lemma {:induction false} SkipsSpace(blanks: string, s: string)
    requires (forall c | c in blanks :: IsSpace(c)) && (s != [] ==> !IsSpace(s[0]))
    ensures SkipSpace(blanks + s) == s
  {
    if blanks == [] {
      assert blanks + s == s;
    } else {
      assert blanks[0] in blanks;
      assert (blanks + s)[1..] == blanks[1..] + s;
      SkipsSpace(blanks[1..], s);
    }
  }

  lemma SignStandsFirst(t: Text)
    requires t.Valid()
    ensures var number := t.digits + t.rest;
            var signed := t.sign + number;
            && (signed != [] ==> !IsSpace(signed[0]))
            && (if t.sign == "" then signed == number && (number != "" ==> number[0] != '-' && number[0] != '+')
                else signed[0] == t.sign[0] && signed[1..] == number)
  {
    assert t.digits != "" ==> t.digits[0] in t.digits;
  }

  /** What `atoi` reads of any text: nothing after the digits counts, and without digits it is zero. */
  lemma AtoiOfText(t: Text, narrow: Narrowing)
    requires t.Valid()
    ensures Atoi(t.blanks + (t.sign + (t.digits + t.rest)), narrow)
            == if -0x8000_0000 <= t.Value() < 0x8000_0000 then t.Value() else narrow(t.Value())
  {
    hide SkipSpace, LeadingDigits, Spelled, IsSpace, IsDigit;
    SignStandsFirst(t);
    SkipsSpace(t.blanks, t.sign + (t.digits + t.rest));
    LeadingDigitsStop(t.digits, t.rest);
  }

  /** And every string is such a text. */
  lemma {:induction false} EveryStringIsAText(s: string) returns (t: Text)
    ensures t.Valid() && s == t.blanks + (t.sign + (t.digits + t.rest))
  {
    if s != "" && IsSpace(s[0]) {
      var u := EveryStringIsAText(s[1..]);
      t := u.(blanks := [s[0]] + u.blanks);
    } else {
      var sign := if s == "" then "" else if s[0] == '-' then "-" else if s[0] == '+' then "+" else "";
      var digits, rest := EveryStringStartsWithDigits(s[|sign|..]);
      t := Text("", sign, digits, rest);
    }
  }

  lemma {:induction false} EveryStringStartsWithDigits(s: string) returns (digits: string, rest: string)
    ensures s == digits + rest && (forall c | c in digits :: IsDigit(c)) && (rest != "" ==> !IsDigit(rest[0]))
  {
    if s == "" || !IsDigit(s[0]) {
      digits, rest := "", s;
    } else {
      digits, rest := EveryStringStartsWithDigits(s[1..]);
      digits := [s[0]] + digits;
    }
  }

  // ---------------------------------------------------------------- the meaning of a list

  predicate IsFlag(arg: string) {
    arg != [] && arg[0] == '-'
  }

  /** The settings the benchmark keeps to itself; all other names go to jelly. */
  datatype Field =
    | MinBlobSize | MaxBlobSize | RandomBlobCacheSize | BlobKeyCount
    | RocksDBCompression | WriteBackend | WriteRate | WriteRunSeconds

  function NameOf(f: Field): string {
    match f
    case MinBlobSize => "min_blob_size"
    case MaxBlobSize => "max_blob_size"
    case RandomBlobCacheSize => "random_blob_cache_size"
    case BlobKeyCount => "blob_key_count"
    case RocksDBCompression => "rocksdb_compression"
    case WriteBackend => "write_backend"
    case WriteRate => "write_rate"
    case WriteRunSeconds => "write_run_seconds"
  }

  function FieldOf(arg: string): Option<Field> {
    if arg == "min_blob_size" then Some(MinBlobSize)
    else if arg == "max_blob_size" then Some(MaxBlobSize)
    else if arg == "random_blob_cache_size" then Some(RandomBlobCacheSize)
    else if arg == "blob_key_count" then Some(BlobKeyCount)
    else if arg == "rocksdb_compression" then Some(RocksDBCompression)
    else if arg == "write_backend" then Some(WriteBackend)
    else if arg == "write_rate" then Some(WriteRate)
    else if arg == "write_run_seconds" then Some(WriteRunSeconds)
    else None
  }

  predicate Reserved(arg: string) {
    FieldOf(arg).Some?
  }

  /** No two settings share a name. */
  lemma FieldOfName(f: Field)
    ensures FieldOf(NameOf(f)) == Some(f)
  {
    assert "min_blob_size"[1] != "max_blob_size"[1];
    assert "min_blob_size"[0] != "write_backend"[0];
    assert "max_blob_size"[0] != "write_backend"[0];
    assert |"min_blob_size"| == |"max_blob_size"| == |"write_backend"| == 13;
    assert |"random_blob_cache_size"| == 22 && |"blob_key_count"| == 14 && |"rocksdb_compression"| == 19;
    assert |"write_rate"| == 10 && |"write_run_seconds"| == 17;
  }

  function AssignField(s: Settings, f: Field, value: string, narrow: Narrowing): Settings {
    match f
    case MinBlobSize => s.(minBlobSize := Wrap64(Atoi(value, narrow)))
    case MaxBlobSize => s.(maxBlobSize := Wrap64(Atoi(value, narrow)))
    case RandomBlobCacheSize => s.(randomBlobCacheSize := Wrap64(Atoi(value, narrow)))
    case BlobKeyCount => s.(blobKeyCount := Wrap64(Atoi(value, narrow)))
    case RocksDBCompression => s.(rocksDBCompression := value)
    case WriteBackend => s.(writeBackend := value)
    case WriteRate => s.(writeRate := Wrap64(Atoi(value, narrow)))
    case WriteRunSeconds => s.(writeRunSeconds := Wrap32(Atoi(value, narrow)))
  }

  function Assign(s: Settings, arg: string, value: string, narrow: Narrowing): Settings {
    match FieldOf(arg)
    case Some(f) => AssignField(s, f, value, narrow)
    case None => s.(jellyConfig := s.jellyConfig[arg := value])
  }

  /** `None` is the syntax error that ends the process. */
  function Parse(s: Settings, args: seq<string>, narrow: Narrowing): Option<Settings>
    decreases |args|
  {
    if args == [] then Some(s)
    else if IsFlag(args[0]) && |args| > 1 && !IsFlag(args[1]) then
      Parse(Assign(s, args[0][1..], args[1], narrow), args[2..], narrow)
    else None
  }

  ghost predicate Alternating(args: seq<string>) {
    |args| % 2 == 0 && forall i | 0 <= i < |args| :: IsFlag(args[i]) <==> i % 2 == 0
  }

  /** A list is accepted exactly when it has even length and alternates flags with values. */
  lemma {:induction false} AcceptedIffAlternating(s: Settings, args: seq<string>, narrow: Narrowing)
    ensures Parse(s, args, narrow).Some? <==> Alternating(args)
    decreases |args|
  {
    if |args| > 1 && IsFlag(args[0]) && !IsFlag(args[1]) {
      var rest := args[2..];
      AcceptedIffAlternating(Assign(s, args[0][1..], args[1], narrow), rest, narrow);
      assert args == args[..2] + rest;
      assert Alternating(args) ==> Alternating(rest) by {
        assert forall i | 0 <= i < |rest| :: rest[i] == args[i + 2];
      }
      assert Alternating(rest) ==> Alternating(args) by {
        assert forall i | 2 <= i < |args| :: args[i] == rest[i - 2];
      }
    } else if |args| == 1 {
      assert !Alternating(args);
    } else if |args| > 1 {
      var bad := if IsFlag(args[0]) then 1 else 0;
      assert IsFlag(args[bad]) != (bad % 2 == 0);
    }
  }

  /** Parsing an accepted list followed by another is parsing the one after the other. */
  lemma {:induction false} ParseAppend(s: Settings, xs: seq<string>, ys: seq<string>, narrow: Narrowing)
    requires Parse(s, xs, narrow).Some?
    ensures Parse(s, xs + ys, narrow) == Parse(Parse(s, xs, narrow).value, ys, narrow)
    decreases |xs|
  {
    if xs == [] {
      assert xs + ys == ys;
    } else {
      assert (xs + ys)[2..] == xs[2..] + ys;
      ParseAppend(Assign(s, xs[0][1..], xs[1], narrow), xs[2..], ys, narrow);
    }
  }

  /** An option given again overrides what came before it, and nothing else. */
  lemma LaterWins(s: Settings, xs: seq<string>, f: Field, value: string, narrow: Narrowing)
    requires Parse(s, xs, narrow).Some? && !IsFlag(value)
    ensures Parse(s, xs + ["-" + NameOf(f), value], narrow)
            == Some(AssignField(Parse(s, xs, narrow).value, f, value, narrow))
  {
    var s' := Parse(s, xs, narrow).value;
    ParseAppend(s, xs, ["-" + NameOf(f), value], narrow);
    AssignByName(s', f, value, narrow);
    ParsePair(s', "-" + NameOf(f), value, [], narrow);
    assert ["-" + NameOf(f), value] + [] == ["-" + NameOf(f), value];
  }

  /** The value of the last pair that names a setting. */
  function LastValue(args: seq<string>, f: Field): Option<string>
    decreases |args|
  {
    if |args| < 2 then None
    else
      match LastValue(args[2..], f)
      case Some(value) => Some(value)
      case None => if args[0] != [] && FieldOf(args[0][1..]) == Some(f) then Some(args[1]) else None
  }

  /** A numeric setting after parsing: its last value, or what it was before. */
  function LastNumber(args: seq<string>, f: Field, before: uint64, narrow: Narrowing): uint64 {
    match LastValue(args, f)
    case Some(value) => Wrap64(Atoi(value, narrow))
    case None => before
  }

  predicate IsNumber(f: Field) {
    f in {MinBlobSize, MaxBlobSize, RandomBlobCacheSize, BlobKeyCount, WriteRate}
  }

  function NumberOf(s: Settings, f: Field): uint64
    requires IsNumber(f)
  {
    match f
    case MinBlobSize => s.minBlobSize
    case MaxBlobSize => s.maxBlobSize
    case RandomBlobCacheSize => s.randomBlobCacheSize
    case BlobKeyCount => s.blobKeyCount
    case WriteRate => s.writeRate
  }

  lemma AssignNumber(s: Settings, arg: string, value: string, f: Field, narrow: Narrowing)
    requires IsNumber(f)
    ensures NumberOf(Assign(s, arg, value, narrow), f)
            == if FieldOf(arg) == Some(f) then Wrap64(Atoi(value, narrow)) else NumberOf(s, f)
  {
    hide FieldOf, Atoi, Wrap64, Wrap32;
  }

  lemma {:induction false} LastNumberDecides(s: Settings, args: seq<string>, f: Field, narrow: Narrowing)
    requires Parse(s, args, narrow).Some? && IsNumber(f)
    ensures NumberOf(Parse(s, args, narrow).value, f) == LastNumber(args, f, NumberOf(s, f), narrow)
    decreases |args|
  {
    hide FieldOf, Atoi, Wrap64, Assign, NumberOf, IsNumber;
    if args != [] {
      AssignNumber(s, args[0][1..], args[1], f, narrow);
      LastNumberDecides(Assign(s, args[0][1..], args[1], narrow), args[2..], f, narrow);
    }
  }

  /** The sizes and counts after an accepted list are the last ones it gives. */
  lemma LastNumbersDecide(s: Settings, args: seq<string>, narrow: Narrowing)
    requires Parse(s, args, narrow).Some?
    ensures var r := Parse(s, args, narrow).value;
            && r.minBlobSize == LastNumber(args, MinBlobSize, s.minBlobSize, narrow)
            && r.maxBlobSize == LastNumber(args, MaxBlobSize, s.maxBlobSize, narrow)
            && r.randomBlobCacheSize == LastNumber(args, RandomBlobCacheSize, s.randomBlobCacheSize, narrow)
            && r.blobKeyCount == LastNumber(args, BlobKeyCount, s.blobKeyCount, narrow)
            && r.writeRate == LastNumber(args, WriteRate, s.writeRate, narrow)
  {
    hide Parse, LastNumber;
    LastNumberDecides(s, args, MinBlobSize, narrow);
    LastNumberDecides(s, args, MaxBlobSize, narrow);
    LastNumberDecides(s, args, RandomBlobCacheSize, narrow);
    LastNumberDecides(s, args, BlobKeyCount, narrow);
    LastNumberDecides(s, args, WriteRate, narrow);
  }

  /** Jelly never receives a reserved name. */
  lemma {:induction false} JellyGetsNoReservedName(s: Settings, args: seq<string>, narrow: Narrowing)
    requires Parse(s, args, narrow).Some?
    requires forall k | k in s.jellyConfig :: !Reserved(k)
    ensures forall k | k in Parse(s, args, narrow).value.jellyConfig :: !Reserved(k)
    decreases |args|
  {
    if args != [] {
      JellyGetsNoReservedName(Assign(s, args[0][1..], args[1], narrow), args[2..], narrow);
    }
  }

  // ---------------------------------------------------------------- round trip

  /** The jelly settings named by `keys`, as arguments. */
  function JellyArgs(m: map<string, string>, keys: seq<string>): seq<string>
    requires forall k | k in keys :: k in m
  {
    if keys == [] then [] else ["-" + keys[0], m[keys[0]]] + JellyArgs(m, keys[1..])
  }

  /** One setting as an argument pair. */
  function FieldArgs(s: Settings, f: Field): (string, string) {
    ("-" + NameOf(f), match f
                      case MinBlobSize => Decimal(s.minBlobSize)
                      case MaxBlobSize => Decimal(s.maxBlobSize)
                      case RandomBlobCacheSize => Decimal(s.randomBlobCacheSize)
                      case BlobKeyCount => Decimal(s.blobKeyCount)
                      case RocksDBCompression => s.rocksDBCompression
                      case WriteBackend => s.writeBackend
                      case WriteRate => Decimal(s.writeRate)
                      case WriteRunSeconds => Decimal(s.writeRunSeconds))
  }

  function Flatten(pairs: seq<(string, string)>): seq<string> {
    if pairs == [] then [] else [pairs[0].0, pairs[0].1] + Flatten(pairs[1..])
  }

  function FieldPairs(s: Settings, fields: seq<Field>): seq<(string, string)> {
    seq(|fields|, i requires 0 <= i < |fields| => FieldArgs(s, fields[i]))
  }

  function FieldsArgs(s: Settings, fields: seq<Field>): seq<string> {
    Flatten(FieldPairs(s, fields))
  }

  const ALL_FIELDS := [MinBlobSize, MaxBlobSize, RandomBlobCacheSize, BlobKeyCount,
                       RocksDBCompression, WriteBackend, WriteRate, WriteRunSeconds]

  /** A configuration as an argument list, its jelly settings in the order of `keys`. */
  function Print(s: Settings, keys: seq<string>): seq<string>
    requires forall k | k in keys :: k in s.jellyConfig
  {
    FieldsArgs(s, ALL_FIELDS) + JellyArgs(s.jellyConfig, keys)
  }

  ghost predicate NumbersFit(s: Settings) {
    && s.minBlobSize < 0x8000_0000 && s.maxBlobSize < 0x8000_0000 && s.randomBlobCacheSize < 0x8000_0000
    && s.blobKeyCount < 0x8000_0000 && s.writeRate < 0x8000_0000 && s.writeRunSeconds < 0x8000_0000
  }

  /** No string looks like a flag, and jelly has no setting under a reserved name. */
  ghost predicate Printable(s: Settings) {
    && !IsFlag(s.rocksDBCompression) && !IsFlag(s.writeBackend)
    && forall k | k in s.jellyConfig :: !Reserved(k) && !IsFlag(s.jellyConfig[k])
  }

  lemma ParsePair(s: Settings, flag: string, value: string, rest: seq<string>, narrow: Narrowing)
    requires IsFlag(flag) && !IsFlag(value)
    ensures Parse(s, [flag, value] + rest, narrow) == Parse(Assign(s, flag[1..], value, narrow), rest, narrow)
  {
    assert ([flag, value] + rest)[2..] == rest;
  }

  lemma DecimalIsNoFlag(n: nat)
    ensures !IsFlag(Decimal(n))
  {
    assert Decimal(n)[0] in Decimal(n);
  }

  /** The settings of `s` for the given fields, everything else from `s0`. */
  function CopyField(s0: Settings, s: Settings, f: Field): Settings {
    match f
    case MinBlobSize => s0.(minBlobSize := s.minBlobSize)
    case MaxBlobSize => s0.(maxBlobSize := s.maxBlobSize)
    case RandomBlobCacheSize => s0.(randomBlobCacheSize := s.randomBlobCacheSize)
    case BlobKeyCount => s0.(blobKeyCount := s.blobKeyCount)
    case RocksDBCompression => s0.(rocksDBCompression := s.rocksDBCompression)
    case WriteBackend => s0.(writeBackend := s.writeBackend)
    case WriteRate => s0.(writeRate := s.writeRate)
    case WriteRunSeconds => s0.(writeRunSeconds := s.writeRunSeconds)
  }

  function CopyFields(s0: Settings, s: Settings, fields: seq<Field>): Settings
    decreases |fields|
  {
    if fields == [] then s0 else CopyFields(CopyField(s0, s, fields[0]), s, fields[1..])
  }

  lemma AssignByName(s: Settings, f: Field, value: string, narrow: Narrowing)
    ensures ("-" + NameOf(f))[1..] == NameOf(f)
    ensures Assign(s, NameOf(f), value, narrow) == AssignField(s, f, value, narrow)
  {
    FieldOfName(f);
  }

  lemma NumberRestores(n: nat, narrow: Narrowing)
    requires n < 0x8000_0000
    ensures Wrap64(Atoi(Decimal(n), narrow)) == n && Wrap32(Atoi(Decimal(n), narrow)) == n
    ensures !IsFlag(Decimal(n))
  {
    DecimalIsNoFlag(n);
    AtoiOfDecimal(n, narrow);
    SmallNumbersDoNotWrap(n);
  }

  /** One printed setting is restored. */
  lemma FieldRestores(s0: Settings, s: Settings, f: Field, narrow: Narrowing)
    requires NumbersFit(s) && !IsFlag(s.rocksDBCompression) && !IsFlag(s.writeBackend)
    ensures var value := FieldArgs(s, f).1;
            !IsFlag(value) && AssignField(s0, f, value, narrow) == CopyField(s0, s, f)
  {
    match f
    case MinBlobSize => NumberRestores(s.minBlobSize, narrow);
    case MaxBlobSize => NumberRestores(s.maxBlobSize, narrow);
    case RandomBlobCacheSize => NumberRestores(s.randomBlobCacheSize, narrow);
    case BlobKeyCount => NumberRestores(s.blobKeyCount, narrow);
    case WriteRate => NumberRestores(s.writeRate, narrow);
    case WriteRunSeconds => NumberRestores(s.writeRunSeconds, narrow);
    case RocksDBCompression =>
    case WriteBackend =>
  }

  lemma ParseField(s0: Settings, s: Settings, f: Field, more: seq<string>, narrow: Narrowing)
    requires NumbersFit(s) && !IsFlag(s.rocksDBCompression) && !IsFlag(s.writeBackend)
    ensures Parse(s0, Flatten([FieldArgs(s, f)]) + more, narrow) == Parse(CopyField(s0, s, f), more, narrow)
  {
    var (flag, value) := FieldArgs(s, f);
    assert [FieldArgs(s, f)][1..] == [];
    assert Flatten([FieldArgs(s, f)]) == [flag, value];
    AssignByName(s0, f, value, narrow);
    FieldRestores(s0, s, f, narrow);
    ParsePair(s0, flag, value, more, narrow);
  }

  lemma FlattenCons(p: (string, string), rest: seq<(string, string)>)
    ensures Flatten([p] + rest) == Flatten([p]) + Flatten(rest)
  {
    assert ([p] + rest)[1..] == rest && [p][1..] == [];
  }

  lemma {:induction false} ParseFields(s0: Settings, s: Settings, fields: seq<Field>, rest: seq<string>,
                                       narrow: Narrowing)
    requires NumbersFit(s) && !IsFlag(s.rocksDBCompression) && !IsFlag(s.writeBackend)
    ensures Parse(s0, FieldsArgs(s, fields) + rest, narrow) == Parse(CopyFields(s0, s, fields), rest, narrow)
    decreases |fields|
  {
    hide FieldArgs, FieldOf, NameOf;
    if fields == [] {
      assert FieldsArgs(s, fields) + rest == rest;
    } else {
      var f, tail := fields[0], fields[1..];
      var first, more := Flatten([FieldArgs(s, f)]), FieldsArgs(s, tail);
      assert FieldPairs(s, fields) == [FieldArgs(s, f)] + FieldPairs(s, tail);
      FlattenCons(FieldArgs(s, f), FieldPairs(s, tail));
      assert FieldsArgs(s, fields) + rest == first + (more + rest);
      ParseField(s0, s, f, more + rest, narrow);
      ParseFields(CopyField(s0, s, f), s, tail, rest, narrow);
    }
  }

  /** The entries of `m` under the given keys. */
  function Selected(m: map<string, string>, keys: seq<string>): map<string, string>
    requires forall k | k in keys :: k in m
  {
    map k | k in keys :: m[k]
  }

  lemma SelectedCons(base: map<string, string>, m: map<string, string>, keys: seq<string>)
    requires keys != [] && forall k | k in keys :: k in m
    ensures base[keys[0] := m[keys[0]]] + Selected(m, keys[1..]) == base + Selected(m, keys)
  {
    assert keys == [keys[0]] + keys[1..];
  }

  lemma SelectedAll(m: map<string, string>, keys: seq<string>)
    requires forall k :: k in keys <==> k in m
    ensures map[] + Selected(m, keys) == m
  {
  }

  lemma {:induction false} ParseJellyArgs(s: Settings, m: map<string, string>, keys: seq<string>, narrow: Narrowing)
    requires forall k | k in keys :: k in m && !Reserved(k) && !IsFlag(m[k])
    ensures Parse(s, JellyArgs(m, keys), narrow) == Some(s.(jellyConfig := s.jellyConfig + Selected(m, keys)))
    decreases |keys|
  {
    if keys == [] {
      assert s.jellyConfig + Selected(m, keys) == s.jellyConfig;
    } else {
      var k := keys[0];
      ParseJellyArgs(s.(jellyConfig := s.jellyConfig[k := m[k]]), m, keys[1..], narrow);
      assert ("-" + k)[1..] == k;
      ParsePair(s, "-" + k, m[k], JellyArgs(m, keys[1..]), narrow);
      SelectedCons(s.jellyConfig, m, keys);
    }
  }

  /** Every printed jelly value stands in a value position. */
  lemma {:induction false} JellyArgsShape(m: map<string, string>, keys: seq<string>, k: string)
    requires forall j | j in keys :: j in m
    requires k in keys
    ensures exists i :: 0 <= i < |JellyArgs(m, keys)| && i % 2 == 1 && JellyArgs(m, keys)[i] == m[k]
    decreases |keys|
  {
    if keys[0] == k {
      assert JellyArgs(m, keys)[1] == m[k];
    } else {
      JellyArgsShape(m, keys[1..], k);
      var i :| 0 <= i < |JellyArgs(m, keys[1..])| && i % 2 == 1 && JellyArgs(m, keys[1..])[i] == m[k];
      assert JellyArgs(m, keys)[i + 2] == m[k];
    }
  }

  lemma {:induction false} FlattenAt(pairs: seq<(string, string)>)
    ensures |Flatten(pairs)| == 2 * |pairs|
    ensures forall i | 0 <= i < |pairs| :: Flatten(pairs)[2 * i] == pairs[i].0
    ensures forall i | 0 <= i < |pairs| :: Flatten(pairs)[2 * i + 1] == pairs[i].1
    decreases |pairs|
  {
    if pairs != [] {
      var rest := pairs[1..];
      FlattenAt(rest);
      forall i | 0 < i < |pairs|
        ensures Flatten(pairs)[2 * i] == pairs[i].0 && Flatten(pairs)[2 * i + 1] == pairs[i].1
      {
        assert Flatten(pairs)[2 * i] == Flatten(rest)[2 * (i - 1)];
        assert Flatten(pairs)[2 * i + 1] == Flatten(rest)[2 * (i - 1) + 1];
      }
    }
  }

  /** An accepted printout has no value that looks like a flag. */
  lemma AcceptedPrintHasNoFlagValues(s: Settings, keys: seq<string>)
    requires forall k | k in keys :: k in s.jellyConfig
    requires Alternating(Print(s, keys))
    ensures !IsFlag(s.rocksDBCompression) && !IsFlag(s.writeBackend)
    ensures forall k | k in keys :: !IsFlag(s.jellyConfig[k])
  {
    var args := Print(s, keys);
    var pairs := FieldPairs(s, ALL_FIELDS);
    FlattenAt(pairs);
    assert pairs[4] == FieldArgs(s, RocksDBCompression) && pairs[5] == FieldArgs(s, WriteBackend);
    assert args[2 * 4 + 1] == pairs[4].1 && args[2 * 5 + 1] == pairs[5].1;
    forall k | k in keys
      ensures !IsFlag(s.jellyConfig[k])
    {
      JellyArgsShape(s.jellyConfig, keys, k);
      var i :| 0 <= i < |JellyArgs(s.jellyConfig, keys)| && i % 2 == 1
               && JellyArgs(s.jellyConfig, keys)[i] == s.jellyConfig[k];
      assert args[16 + i] == s.jellyConfig[k];
    }
  }

  lemma CopyAllFields(s0: Settings, s: Settings)
    ensures CopyFields(s0, s, ALL_FIELDS) == s.(jellyConfig := s0.jellyConfig)
  {
    var s1 := CopyField(s0, s, MinBlobSize);
    var s2 := CopyField(s1, s, MaxBlobSize);
    var s3 := CopyField(s2, s, RandomBlobCacheSize);
    var s4 := CopyField(s3, s, BlobKeyCount);
    var s5 := CopyField(s4, s, RocksDBCompression);
    var s6 := CopyField(s5, s, WriteBackend);
    var s7 := CopyField(s6, s, WriteRate);
    assert ALL_FIELDS[1..][1..][1..][1..] == [RocksDBCompression, WriteBackend, WriteRate, WriteRunSeconds];
    assert CopyFields(s4, s, [RocksDBCompression, WriteBackend, WriteRate, WriteRunSeconds])
        == CopyFields(s6, s, [WriteRate, WriteRunSeconds]);
    assert CopyFields(s0, s, ALL_FIELDS) == CopyFields(s2, s, ALL_FIELDS[1..][1..]);
  }

  lemma PrintedIsRestored(s0: Settings, s: Settings, keys: seq<string>, narrow: Narrowing)
    requires NumbersFit(s) && Printable(s) && s0.jellyConfig == map[]
    requires forall k :: k in keys <==> k in s.jellyConfig
    ensures Parse(s0, Print(s, keys), narrow) == Some(s)
  {
    ParseFields(s0, s, ALL_FIELDS, JellyArgs(s.jellyConfig, keys), narrow);
    CopyAllFields(s0, s);
    ParseJellyArgs(s.(jellyConfig := map[]), s.jellyConfig, keys, narrow);
    SelectedAll(s.jellyConfig, keys);
  }

  /** Printing a configuration and parsing it, on top of any configuration without jelly settings,
      restores it exactly when no string looks like a flag and jelly has no reserved name. */
  lemma RoundTrip(s0: Settings, s: Settings, keys: seq<string>, narrow: Narrowing)
    requires NumbersFit(s) && s0.jellyConfig == map[]
    requires forall k :: k in keys <==> k in s.jellyConfig
    ensures Parse(s0, Print(s, keys), narrow) == Some(s) <==> Printable(s)
  {
    if Printable(s) {
      PrintedIsRestored(s0, s, keys, narrow);
    } else if Parse(s0, Print(s, keys), narrow) == Some(s) {
      JellyGetsNoReservedName(s0, Print(s, keys), narrow);
      AcceptedIffAlternating(s0, Print(s, keys), narrow);
      AcceptedPrintHasNoFlagValues(s, keys);
    }
  }

  // ---------------------------------------------------------------- literal command lines

  lemma DecimalTimesTen(n: nat, s: string)
    requires n > 0 && Decimal(n) == s
    ensures Decimal(10 * n) == s + "0"
  {
  }

  lemma SmallDecimals()
    ensures Decimal(1) == "1" && Decimal(2) == "2" && Decimal(5) == "5" && Decimal(12) == "12" && Decimal(15) == "15"
  {
  }

  lemma DecimalsOfDefaults()
    ensures Decimal(5000) == "5000" && Decimal(15000) == "15000" && Decimal(1000) == "1000"
    ensures Decimal(10000) == "10000" && Decimal(10) == "10" && Decimal(120) == "120" && Decimal(20000) == "20000"
  {
    hide Decimal;
    SmallDecimals();
    DecimalTimesThousand(5, "5");
    DecimalTimesThousand(15, "15");
    DecimalTimesThousand(1, "1");
    DecimalTimesThousand(2, "2");
    DecimalTimesTen(1, "1");
    DecimalTimesTen(12, "12");
    DecimalTimesTen(1000, "1000");
    DecimalTimesTen(2000, "2000");
  }

  lemma DecimalTimesThousand(n: nat, s: string)
    requires n > 0 && Decimal(n) == s
    ensures Decimal(1000 * n) == s + "000"
  {
    hide Decimal;
    DecimalTimesTen(n, s);
    DecimalTimesTen(10 * n, s + "0");
    DecimalTimesTen(100 * n, s + "0" + "0");
    assert s + "0" + "0" + "0" == s + "000";
  }

  lemma SizeFlagsSpelled()
    ensures "-" + NameOf(MinBlobSize) == "-min_blob_size" && "-" + NameOf(MaxBlobSize) == "-max_blob_size"
    ensures "-" + NameOf(RandomBlobCacheSize) == "-random_blob_cache_size"
    ensures "-" + NameOf(BlobKeyCount) == "-blob_key_count"
  {
  }

  lemma BackendFlagsSpelled()
    ensures "-" + NameOf(RocksDBCompression) == "-rocksdb_compression" && "-" + NameOf(WriteBackend) == "-write_backend"
  {
  }

  lemma RateFlagsSpelled()
    ensures "-" + NameOf(WriteRate) == "-write_rate" && "-" + NameOf(WriteRunSeconds) == "-write_run_seconds"
  {
  }

  /** The pair at position `i` of a list gives a value under a name. */
  ghost predicate Gives(args: seq<string>, i: nat, name: string, value: string) {
    i + 1 < |args| && args[i] == "-" + name && args[i + 1] == value && !IsFlag(value)
  }

  lemma ParseAt(s: Settings, args: seq<string>, i: nat, name: string, value: string, narrow: Narrowing)
    requires Gives(args, i, name, value)
    ensures Parse(s, args[i..], narrow) == Parse(Assign(s, name, value, narrow), args[i + 2..], narrow)
  {
    assert args[i..][2..] == args[i + 2..] && args[i][1..] == name;
  }

  lemma ParseFieldAt(s: Settings, args: seq<string>, i: nat, f: Field, value: string, narrow: Narrowing)
    requires Gives(args, i, NameOf(f), value)
    ensures Parse(s, args[i..], narrow) == Parse(AssignField(s, f, value, narrow), args[i + 2..], narrow)
  {
    ParseAt(s, args, i, NameOf(f), value, narrow);
    AssignByName(s, f, value, narrow);
  }

  lemma ParseJellyAt(s: Settings, args: seq<string>, i: nat, name: string, value: string, narrow: Narrowing)
    requires Gives(args, i, name, value) && !Reserved(name)
    ensures Parse(s, args[i..], narrow)
            == Parse(s.(jellyConfig := s.jellyConfig[name := value]), args[i + 2..], narrow)
  {
    ParseAt(s, args, i, name, value, narrow);
  }

  lemma ParseEnd(s: Settings, args: seq<string>, narrow: Narrowing)
    ensures args[0..] == args && Parse(s, args[|args|..], narrow) == Some(s)
  {
  }

  lemma GivesAllDefaults(s: Settings, args: seq<string>, narrow: Narrowing)
    requires |args| == 16
    requires Gives(args, 0, NameOf(MinBlobSize), Decimal(5000)) && Gives(args, 2, NameOf(MaxBlobSize), Decimal(15000))
    requires Gives(args, 4, NameOf(RandomBlobCacheSize), Decimal(1000))
    requires Gives(args, 6, NameOf(BlobKeyCount), Decimal(10000))
    requires Gives(args, 8, NameOf(RocksDBCompression), "none") && Gives(args, 10, NameOf(WriteBackend), "jelly")
    requires Gives(args, 12, NameOf(WriteRate), Decimal(1000)) && Gives(args, 14, NameOf(WriteRunSeconds), Decimal(10))
    ensures Parse(s, args, narrow) == Some(DEFAULTS.(jellyConfig := s.jellyConfig))
  {
    hide Parse, NameOf, FieldOf, Atoi, Decimal, Gives, IsFlag;
    NumberRestores(5000, narrow);
    NumberRestores(15000, narrow);
    NumberRestores(1000, narrow);
    NumberRestores(10000, narrow);
    NumberRestores(10, narrow);
    var s1 := s.(minBlobSize := 5000);
    var s2 := s1.(maxBlobSize := 15000);
    var s3 := s2.(randomBlobCacheSize := 1000);
    var s4 := s3.(blobKeyCount := 10000);
    var s5 := s4.(rocksDBCompression := "none");
    var s6 := s5.(writeBackend := "jelly");
    var s7 := s6.(writeRate := 1000);
    ParseFieldAt(s, args, 0, MinBlobSize, Decimal(5000), narrow);
    ParseFieldAt(s1, args, 2, MaxBlobSize, Decimal(15000), narrow);
    ParseFieldAt(s2, args, 4, RandomBlobCacheSize, Decimal(1000), narrow);
    ParseFieldAt(s3, args, 6, BlobKeyCount, Decimal(10000), narrow);
    ParseFieldAt(s4, args, 8, RocksDBCompression, "none", narrow);
    ParseFieldAt(s5, args, 10, WriteBackend, "jelly", narrow);
    ParseFieldAt(s6, args, 12, WriteRate, Decimal(1000), narrow);
    ParseFieldAt(s7, args, 14, WriteRunSeconds, Decimal(10), narrow);
    ParseEnd(s7.(writeRunSeconds := 10), args, narrow);
  }

  /** Every setting under its literal name: spelling out the defaults gives the defaults. */
  lemma DefaultsSpelledOut(s: Settings, narrow: Narrowing)
    ensures Parse(s, ["-min_blob_size", "5000", "-max_blob_size", "15000", "-random_blob_cache_size", "1000",
                      "-blob_key_count", "10000", "-rocksdb_compression", "none", "-write_backend", "jelly",
                      "-write_rate", "1000", "-write_run_seconds", "10"], narrow)
            == Some(DEFAULTS.(jellyConfig := s.jellyConfig))
  {
    hide Parse, NameOf, FieldOf, Atoi, Decimal;
    SizeFlagsSpelled();
    BackendFlagsSpelled();
    RateFlagsSpelled();
    DecimalsOfDefaults();
    GivesAllDefaults(s, ["-min_blob_size", "5000", "-max_blob_size", "15000", "-random_blob_cache_size", "1000",
                         "-blob_key_count", "10000", "-rocksdb_compression", "none", "-write_backend", "jelly",
                         "-write_rate", "1000", "-write_run_seconds", "10"], narrow);
  }

  lemma GivesDocumented(args: seq<string>, jelly: string, backend: string, rate: string, narrow: Narrowing)
    requires |args| == 12 && !Reserved(jelly)
    requires Gives(args, 0, NameOf(WriteBackend), backend) && Gives(args, 2, NameOf(WriteRate), rate)
    requires Gives(args, 4, NameOf(WriteRunSeconds), Decimal(120))
    requires Gives(args, 6, NameOf(BlobKeyCount), Decimal(20000))
    requires Gives(args, 8, jelly, "none") && Gives(args, 10, NameOf(RocksDBCompression), "none")
    ensures Parse(DEFAULTS, args, narrow)
            == Some(Settings(5000, 15000, 1000, 20000, map[jelly := "none"], "none", backend,
                             Wrap64(Atoi(rate, narrow)), 120))
  {
    hide Parse, NameOf, FieldOf, Atoi, Decimal, Gives, IsFlag, Reserved;
    NumberRestores(120, narrow);
    NumberRestores(20000, narrow);
    var s1 := DEFAULTS.(writeBackend := backend);
    var s2 := s1.(writeRate := Wrap64(Atoi(rate, narrow)));
    var s3 := s2.(writeRunSeconds := 120);
    var s4 := s3.(blobKeyCount := 20000);
    var s5 := s4.(jellyConfig := map[jelly := "none"]);
    ParseFieldAt(DEFAULTS, args, 0, WriteBackend, backend, narrow);
    ParseFieldAt(s1, args, 2, WriteRate, rate, narrow);
    ParseFieldAt(s2, args, 4, WriteRunSeconds, Decimal(120), narrow);
    ParseFieldAt(s3, args, 6, BlobKeyCount, Decimal(20000), narrow);
    ParseJellyAt(s4, args, 8, jelly, "none", narrow);
    ParseFieldAt(s5, args, 10, RocksDBCompression, "none", narrow);
    ParseEnd(s5.(rocksDBCompression := "none"), args, narrow);
  }

  /** The command line that the documentation gives, for a backend and a rate. */
  function Documented(backend: string, rate: string): seq<string> {
    ["-write_backend", backend, "-write_rate", rate, "-write_run_seconds", "120", "-blob_key_count", "20000",
     "-compression_method", "none", "-rocksdb_compression", "none"]
  }

  /** It leaves the sizes and the cache of the defaults, and what it gives itself. */
  lemma DocumentedCommandLine(backend: string, rate: string, narrow: Narrowing)
    requires !IsFlag(backend) && !IsFlag(rate)
    ensures Parse(DEFAULTS, Documented(backend, rate), narrow)
            == Some(Settings(5000, 15000, 1000, 20000, map["compression_method" := "none"], "none", backend,
                             Wrap64(Atoi(rate, narrow)), 120))
  {
    hide Parse, NameOf, FieldOf, Atoi, Decimal;
    SizeFlagsSpelled();
    BackendFlagsSpelled();
    RateFlagsSpelled();
    DecimalsOfDefaults();
    CompressionMethodIsJellys();
    assert "-" + "compression_method" == "-compression_method";
    GivesDocumented(Documented(backend, rate), "compression_method", backend, rate, narrow);
  }

  lemma CompressionMethodIsJellys()
    ensures !Reserved("compression_method")
  {
    assert |"compression_method"| == 18 && |"min_blob_size"| == |"max_blob_size"| == |"write_backend"| == 13;
    assert |"random_blob_cache_size"| == 22 && |"blob_key_count"| == 14 && |"rocksdb_compression"| == 19;
    assert |"write_rate"| == 10 && |"write_run_seconds"| == 17;
  }

  /** What the program sets itself after parsing, whatever was given. */
  function Overridden(s: Settings): Settings {
    s.(writeBackend := "jelly", rocksDBCompression := "none", writeRate := 10000,
       jellyConfig := s.jellyConfig["compression_method" := "none"]["max_resident_blob_size" := "0"])
  }

  /** So of the documented command line only the duration and the key count have an effect: whatever
      backend and rate it asks for, the program runs jelly at 10000 writes per second. */
  lemma DocumentedSettings(backend: string, rate: string, narrow: Narrowing)
    requires !IsFlag(backend) && !IsFlag(rate)
    ensures var parsed := Parse(DEFAULTS, Documented(backend, rate), narrow);
            && parsed.Some?
            && Overridden(parsed.value)
               == Settings(5000, 15000, 1000, 20000,
                           map["compression_method" := "none", "max_resident_blob_size" := "0"],
                           "none", "jelly", 10000, 120)
  {
    DocumentedCommandLine(backend, rate, narrow);
  }

  // ---------------------------------------------------------------- the parser

  /** The configuration object that the parser fills in. */
  class ConfigObject {
    var minBlobSize: uint64
    var maxBlobSize: uint64
    var randomBlobCacheSize: uint64
    var blobKeyCount: uint64
    var jellyConfig: map<string, string>
    var rocksDBCompression: string
    var writeBackend: string
    var writeRate: uint64
    var writeRunSeconds: uint32

    constructor ()
      ensures Value() == DEFAULTS
    {
      minBlobSize, maxBlobSize, randomBlobCacheSize, blobKeyCount := 5000, 15000, 1000, 10000;
      jellyConfig, rocksDBCompression, writeBackend := map[], "none", "jelly";
      writeRate, writeRunSeconds := 1000, 10;
    }

    function Value(): Settings
      reads this
    {
      Settings(minBlobSize, maxBlobSize, randomBlobCacheSize, blobKeyCount, jellyConfig,
               rocksDBCompression, writeBackend, writeRate, writeRunSeconds)
    }

    /** `args[0]` is the program name. `ok` is false on the syntax error that ends the process. */
    method InitFromCommandLine(args: seq<string>, narrow: Narrowing) returns (ok: bool)
      modifies this
      ensures var parsed := Parse(old(Value()), if args == [] then [] else args[1..], narrow);
              ok == parsed.Some? && (ok ==> Value() == parsed.value)
    {
      var i := 1;
      while i < |args|
        invariant i >= 1 && (i <= |args| || args == [])
        invariant Parse(old(Value()), if args == [] then [] else args[1..], narrow)
                  == Parse(Value(), if args == [] then [] else args[i..], narrow)
      {
        if !IsFlag(args[i]) {
          return false;
        }
        var arg := args[i][1..];
        var value := None;
        ghost var rest := args[i..];
        if i + 1 < |args| && !IsFlag(args[i + 1]) {
          value := Some(args[i + 1]);
          i := i + 1;
        }
        if value.None? {
          return false;
        }
        SetOption(arg, value.value, narrow);
        i := i + 1;
        assert args[i..] == rest[2..];
      }
      ok := true;
    }

    /** What the program sets itself after parsing. */
    method Override()
      modifies this
      ensures Value() == Overridden(old(Value()))
    {
      writeBackend := "jelly";
      rocksDBCompression := "none";
      jellyConfig := jellyConfig["compression_method" := "none"];
      jellyConfig := jellyConfig["max_resident_blob_size" := "0"];
      writeRate := 10000;
    }

    /** The chain of name comparisons inside the loop. */
    method SetOption(arg: string, value: string, narrow: Narrowing)
      modifies this
      ensures Value() == Assign(old(Value()), arg, value, narrow)
    {
      hide Atoi, Wrap32, Wrap64;
      if arg == "min_blob_size" {
        minBlobSize := Wrap64(Atoi(value, narrow));
      } else if arg == "max_blob_size" {
        maxBlobSize := Wrap64(Atoi(value, narrow));
      } else if arg == "random_blob_cache_size" {
        randomBlobCacheSize := Wrap64(Atoi(value, narrow));
      } else if arg == "blob_key_count" {
        blobKeyCount := Wrap64(Atoi(value, narrow));
      } else if arg == "rocksdb_compression" {
        rocksDBCompression := value;
      } else if arg == "write_backend" {
        writeBackend := value;
      } else if arg == "write_rate" {
        writeRate := Wrap64(Atoi(value, narrow));
      } else if arg == "write_run_seconds" {
        writeRunSeconds := Wrap32(Atoi(value, narrow));
      } else {
        jellyConfig := jellyConfig[arg := value];
      }
    }
  }
}
