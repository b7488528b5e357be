/** Stable-version thresholds and concrete compiler versions, and the
    comparisons between them and against nightly dates. */
module Versions {
  import opened Primitives
  import Lex
  import Text
  import Dates
  import Channels

  /** A threshold such as `1.48` or `1.32.4`; a missing patch matches every patch. */
  datatype StableVersion = StableVersion(major: u32, minor: u32, patch: Option<u32>)

  /** A concrete compiler version with its channel. */
  datatype RustVersion = RustVersion(major: u32, minor: u32, patch: u32, channel: Channels.Channel)

  /** `check_major_version` with validation on: only `1.*` is accepted. */
  predicate SupportedMajor(major: u32) {
    major == 1
  }

  /** `StableVersion::minor`: a threshold matching every patch of `major.minor`. */
  function Minor(major: u32, minor: u32): (s: StableVersion)
    requires SupportedMajor(major)
    ensures s.major == major && s.minor == minor && s.patch.None?
  {
    StableVersion(major, minor, None)
  }

  /** `StableVersion::patch`: the threshold `major.minor.patch`. */
  function Patch(major: u32, minor: u32, patch: u32): (s: StableVersion)
    requires SupportedMajor(major)
    ensures s.major == major && s.minor == minor && s.patch == Some(patch)
  {
    StableVersion(major, minor, Some(patch))
  }

  /** `RustVersion::stable`. */
  function Stable(major: u32, minor: u32, patch: u32): (v: RustVersion)
    requires SupportedMajor(major)
    ensures Key(v) == [major, minor, patch]
    ensures Channels.IsStable(v.channel)
  {
    RustVersion(major, minor, patch, Channels.Stable)
  }

  /** The numbers of a version, most significant first. */
  function Key(v: RustVersion): seq<int> {
    [v.major, v.minor, v.patch]
  }

  /** The numbers a threshold fixes: two, or three when it has a patch. */
  function SpecKey(s: StableVersion): seq<int> {
    [s.major, s.minor] + (if s.patch.Some? then [s.patch.value] else [])
  }

  /** `to_version`: the stable release the threshold names, patch 0 when
      unspecified. It goes through `RustVersion::stable`, so it too needs
      major version 1. */
  function ToVersion(s: StableVersion): (v: RustVersion)
    requires SupportedMajor(s.major)
    ensures v.channel == Channels.Stable
    ensures v.major == s.major && v.minor == s.minor && v.patch == s.patch.GetOr(0)
    ensures IsSince(v, s)
  {
    Stable(s.major, s.minor, match s.patch { case None => 0 case Some(p) => p })
  }

  /** `to_spec` (a test helper): the threshold naming exactly this version. */
  function ToSpec(v: RustVersion): (s: StableVersion)
    requires SupportedMajor(v.major)
    ensures SpecKey(s) == Key(v)
    ensures IsSince(v, s)
  {
    Patch(v.major, v.minor, v.patch)
  }

  /** `is_since`: the version is at or after the threshold, comparing only
      the numbers the threshold fixes, lexicographically; the channel plays
      no part. */
  function IsSince(v: RustVersion, spec: StableVersion): (r: bool)
    ensures r <==> Lex.LexGe(Key(v)[..|SpecKey(spec)|], SpecKey(spec))
  {
    LexGeSpecKey(v, spec);
    v.major > spec.major
    || (v.major == spec.major
        && (v.minor > spec.minor
            || (v.minor == spec.minor
                && match spec.patch {
                  case None => true
                  case Some(p) => v.patch >= p
                })))
  }

  lemma LexGeSpecKey(v: RustVersion, spec: StableVersion)
    ensures Lex.LexGe(Key(v)[..|SpecKey(spec)|], SpecKey(spec))
        <==> v.major > spec.major
             || (v.major == spec.major
                 && (v.minor > spec.minor
                     || (v.minor == spec.minor && (spec.patch.Some? ==> v.patch >= spec.patch.value))))
  {
    if spec.patch.Some? {
      assert Key(v)[..3] == Key(v);
      Lex.LexGeTriple(v.major, v.minor, v.patch, spec.major, spec.minor, spec.patch.value);
    } else {
      var xs, ys := Key(v)[..2], SpecKey(spec);
      assert xs[1..] == [v.minor] && ys[1..] == [spec.minor];
      assert xs[1..][1..] == [] && ys[1..][1..] == [];
      assert Lex.LexGe(xs[1..], ys[1..]) <==> v.minor >= spec.minor;
    }
  }

  /** `is_before`: the version is strictly below the threshold. */
  function IsBefore(v: RustVersion, spec: StableVersion): (r: bool)
    ensures r <==> !Lex.LexGe(Key(v)[..|SpecKey(spec)|], SpecKey(spec))
  {
    !IsSince(v, spec)
  }

  /** `is_since_nightly`: a nightly built on or after `start`; development
      builds count as after every nightly, stable and beta as after none. */
  function IsSinceNightly(v: RustVersion, start: Dates.Date): (r: bool)
    ensures v.channel.Nightly? ==> (r <==> Dates.IsSince(v.channel.date, start))
    ensures v.channel.Stable? || v.channel.Beta? ==> !r
    ensures v.channel.Dev? ==> r
  {
    match v.channel
    case Nightly(date) => Dates.IsSince(date, start)
    case Stable | Beta => false
    case Dev => true
  }

  /** `is_before_nightly`: a nightly built before `end`; development builds
      count as before every nightly, stable and beta as before none. */
  function IsBeforeNightly(v: RustVersion, end: Dates.Date): (r: bool)
    ensures v.channel.Nightly? ==> (r <==> Dates.IsBefore(v.channel.date, end))
    ensures v.channel.Stable? || v.channel.Beta? ==> !r
    ensures v.channel.Dev? ==> r
  {
    match v.channel
    case Nightly(date) => Dates.IsBefore(date, end)
    case Stable | Beta => false
    case Dev => true
  }

  predicate IsNightly(v: RustVersion) {
    Channels.IsNightly(v.channel)
  }

  predicate IsStable(v: RustVersion) {
    Channels.IsStable(v.channel)
  }

  predicate IsBeta(v: RustVersion) {
    Channels.IsBeta(v.channel)
  }

  predicate IsDevelopment(v: RustVersion) {
    Channels.IsDevelopment(v.channel)
  }

  /** The version-level channel tests agree with the channel, and exactly one holds. */
  lemma ExactlyOneChannel(v: RustVersion)
    ensures IsNightly(v) <==> v.channel.Nightly?
    ensures IsStable(v) <==> v.channel.Stable?
    ensures IsBeta(v) <==> v.channel.Beta?
    ensures IsDevelopment(v) <==> v.channel.Dev?
    ensures (if IsNightly(v) then 1 else 0) + (if IsStable(v) then 1 else 0)
          + (if IsBeta(v) then 1 else 0) + (if IsDevelopment(v) then 1 else 0) == 1
  {
    Channels.ExactlyOneChannel(v.channel);
  }

  // ---------------------------------------------------------------------
  // Properties of the stable comparisons
  // ---------------------------------------------------------------------

  /** `is_since` and `is_before` are complements. */
  lemma SinceBeforeComplement(v: RustVersion, spec: StableVersion)
    ensures IsBefore(v, spec) != IsSince(v, spec)
  {
  }

  /** Changing only the channel changes neither comparison. */
  lemma ChannelIgnored(v: RustVersion, c: Channels.Channel, spec: StableVersion)
    ensures IsSince(v.(channel := c), spec) == IsSince(v, spec)
    ensures IsBefore(v.(channel := c), spec) == IsBefore(v, spec)
  {
  }

  /** A threshold without a patch behaves as patch 0, and is met by every
      patch of its minor version. */
  lemma MissingPatchMatchesAny(v: RustVersion, major: u32, minor: u32)
    ensures IsSince(v, StableVersion(major, minor, None)) == IsSince(v, StableVersion(major, minor, Some(0)))
    ensures v.major == major && v.minor == minor ==> IsSince(v, StableVersion(major, minor, None))
  {
  }

  /** Being since a version's own threshold carries over to every threshold
      that version meets; being before chains the same way. */
  lemma IsSinceTransitive(a: RustVersion, b: RustVersion, spec: StableVersion)
    requires SupportedMajor(b.major)
    requires IsSince(a, ToSpec(b)) && IsSince(b, spec)
    ensures IsSince(a, spec)
  {
  }

  lemma IsBeforeTransitive(a: RustVersion, b: RustVersion, c: RustVersion)
    requires SupportedMajor(b.major) && SupportedMajor(c.major)
    requires IsBefore(a, ToSpec(b)) && IsBefore(b, ToSpec(c))
    ensures IsBefore(a, ToSpec(c))
  {
  }

  /** The pairs the crate's tests and examples order. */
  lemma DocumentedOrderings()
    ensures IsBefore(Stable(1, 18, 0), ToSpec(Stable(1, 80, 3)))
    ensures IsSince(Stable(1, 80, 3), ToSpec(Stable(1, 18, 0)))
    ensures IsSince(Stable(1, 32, 2), Minor(1, 32))
    ensures IsSince(Stable(1, 48, 0), Patch(1, 32, 7))
  {
  }

  /** The tests' other pair orders 1.7.8 before the detected compiler. Any
      compiler with major version 1 and a minor version of 8 or more (the
      crate itself needs 1.31) is such a compiler, channel regardless. */
  lemma OldestBeforeCurrent(current: RustVersion)
    requires SupportedMajor(current.major) && current.minor >= 8
    ensures IsBefore(Stable(1, 7, 8), ToSpec(current))
    ensures IsSince(current, ToSpec(Stable(1, 7, 8)))
  {
  }

  // ---------------------------------------------------------------------
  // Properties of the nightly comparisons
  // ---------------------------------------------------------------------

  /** The two nightly comparisons are complements exactly on nightly
      compilers: stable and beta satisfy neither, development builds both. */
  lemma NightlyComplementOnlyForNightly(v: RustVersion, d: Dates.Date)
    ensures IsSinceNightly(v, d) == !IsBeforeNightly(v, d) <==> v.channel.Nightly?
  {
  }

  /** A later cutoff is harder to be since and easier to be before. */
  lemma NightlyCutoffMonotone(v: RustVersion, earlier: Dates.Date, later: Dates.Date)
    requires Dates.IsSince(later, earlier)
    ensures IsSinceNightly(v, later) ==> IsSinceNightly(v, earlier)
    ensures IsBeforeNightly(v, earlier) ==> IsBeforeNightly(v, later)
  {
    if v.channel.Nightly? {
      if Dates.IsSince(v.channel.date, later) {
        Dates.IsSinceTransitive(v.channel.date, later, earlier);
      }
    }
  }

  /** The nightly boundary cases of the crate's examples. */
  lemma NightlyExamples()
    ensures IsBeforeNightly(RustVersion(1, 84, 0, Channels.Nightly(Dates.New(2024, 11, 14))), Dates.New(2024, 11, 17))
    ensures !IsSinceNightly(RustVersion(1, 84, 0, Channels.Nightly(Dates.New(2024, 11, 14))), Dates.New(2024, 12, 7))
  {
  }

  /** As written, `is_before_nightly` is not the negation its documentation
      promises: a stable release is neither since nor before any nightly
      date, and a development build is both. */
  lemma IsBeforeNightlyNotNegation(d: Dates.Date)
    ensures !IsSinceNightly(Stable(1, 80, 0), d) && !IsBeforeNightly(Stable(1, 80, 0), d)
    ensures IsSinceNightly(RustVersion(1, 84, 0, Channels.Dev), d) && IsBeforeNightly(RustVersion(1, 84, 0, Channels.Dev), d)
  {
  }

  /** `is_before_nightly` as its documentation describes it: stable and beta
      are before every nightly, development builds after every one, and it
      is the negation of `is_since_nightly` on every channel. */
  function IsBeforeNightlyAsDocumented(v: RustVersion, end: Dates.Date): (r: bool)
    ensures r == !IsSinceNightly(v, end)
    ensures v.channel.Nightly? ==> (r <==> Dates.IsBefore(v.channel.date, end))
    ensures v.channel.Stable? || v.channel.Beta? ==> r
    ensures v.channel.Dev? ==> !r
  {
    match v.channel
    case Nightly(date) => Dates.IsBefore(date, end)
    case Stable | Beta => true
    case Dev => false
  }

  // ---------------------------------------------------------------------
  // Display of a threshold
  // ---------------------------------------------------------------------

  /** `Display` for `StableVersion`: `major.minor`, then `.patch` when given. */
  function SpecText(s: StableVersion): string {
    Text.Decimal(s.major) + "." + Text.Decimal(s.minor)
    + (match s.patch { case None => "" case Some(p) => "." + Text.Decimal(p) })
  }

  function SpecFields(s: StableVersion): (f: seq<string>)
    ensures |f| == |SpecKey(s)|
  {
    [Text.Decimal(s.major), Text.Decimal(s.minor)]
    + (match s.patch { case None => [] case Some(p) => [Text.Decimal(p)] })
  }

  /** The text is the threshold's fixed numbers, in order, as shortest
      decimals separated by dots. */
  lemma SpecTextRoundTrip(s: StableVersion)
    ensures Text.Split(SpecText(s), '.') == SpecFields(s)
    ensures forall i :: 0 <= i < |SpecFields(s)| ==> Text.Value(SpecFields(s)[i]) == SpecKey(s)[i]
  {
    var f := SpecFields(s);
    forall i | 0 <= i < |f|
      ensures '.' !in f[i]
    {
      assert forall j :: 0 <= j < |f[i]| ==> Text.IsDigit(f[i][j]);
    }
    if s.patch.None? {
      assert Text.Join(f, '.') == SpecText(s) by {
        assert f[1..] == [f[1]];
      }
    } else {
      calc {
        Text.Join(f, '.');
        f[0] + ['.'] + Text.Join(f[1..], '.');
        { assert f[1..][1..] == [f[2]]; }
        f[0] + ['.'] + (f[1] + ['.'] + f[2]);
        SpecText(s);
      }
    }
    Text.SplitJoin(f, '.');
  }
}
