/** The parser for the output of `rustc --version`, as the build script
    runs it. The build script declares its own `Channel` and `Date` with the
    same shape as the library's; this model reuses `Channels.Channel` and
    `Dates.Date`. Its version numbers are 16-bit, unlike the library's. */
module Rustc {
  import opened Primitives
  import Text
  import Dates
  import Channels
  import Versions

  datatype Version = Version(major: u16, minor: u16, patch: u16, channel: Channels.Channel)

  datatype ParseResult =
    | Success(version: Version)
    /** The first word names clippy's driver: run it again asking for the wrapped rustc. */
    | OopsClippy
    | Unrecognized

  // ---------------------------------------------------------------------
  // Lines and words
  // ---------------------------------------------------------------------

  /** `s.lines().last().unwrap_or(s)`: the text after the last line break,
      where one final `\n` only terminates the last line and a `\r` before
      it is dropped. This is the last line even when it is blank. */
  function LastLine(s: string): (line: string)
    ensures '\n' !in line
    ensures var u := Unterminated(s);
      '\n' !in u ==> line == if |u| > 0 && u[|u| - 1] == '\r' then u[..|u| - 1] else u
  {
    var u := Unterminated(s);
    var lines := Text.Split(u, '\n');
    Text.SplitPieces(u, '\n');
    assert '\n' !in u ==> lines == [u] by {
      if '\n' !in u {
        Text.SplitWithoutSep(u, '\n');
      }
    }
    DropCarriageReturn(lines[|lines| - 1])
  }

  /** A line without the `\r` of a `\r\n` terminator. */
  function DropCarriageReturn(line: string): string {
    if |line| > 0 && line[|line| - 1] == '\r' then line[..|line| - 1] else line
  }

  /** The text without the `\n` that terminates its last line, if any. */
  function Unterminated(s: string): string {
    if |s| > 0 && s[|s| - 1] == '\n' then s[..|s| - 1] else s
  }

  /** A word the line splitter keeps whole: no space and no line break. */
  predicate Clean(w: string) {
    ' ' !in w && '\n' !in w
  }

  /** `last_line.trim().split(' ')`: runs of spaces give empty words. */
  function Words(s: string): (words: seq<string>)
    ensures |words| >= 1
  {
    Text.Split(Text.Trim(LastLine(s)), ' ')
  }

  // ---------------------------------------------------------------------
  // The grammar
  // ---------------------------------------------------------------------

  function ParseU16(s: string): (r: Option<u16>)
    ensures r.Some? <==> Text.ParseUnsigned(s, 0x1_0000).Some?
    ensures r.Some? ==> Text.ParseUnsigned(s, 0x1_0000) == Some(r.value as nat)
  {
    match Text.ParseUnsigned(s, 0x1_0000)
    case None => None
    case Some(n) => Some(n as u16)
  }

  function ParseU8(s: string): (r: Option<u8>)
    ensures r.Some? <==> Text.ParseUnsigned(s, 0x100).Some?
    ensures r.Some? ==> Text.ParseUnsigned(s, 0x100) == Some(r.value as nat)
  {
    match Text.ParseUnsigned(s, 0x100)
    case None => None
    case Some(n) => Some(n as u8)
  }

  /** `MAJOR.MINOR[.PATCH[.…]]`: major and minor are required, a missing
      patch is 0, and dot components after the third are ignored. */
  function ParseNumbers(version: string): (r: Option<(u16, u16, u16)>)
    ensures var parts := Text.Split(version, '.');
      r.Some? <==> |parts| >= 2 && ParseU16(parts[0]).Some? && ParseU16(parts[1]).Some?
                   && (|parts| >= 3 ==> ParseU16(parts[2]).Some?)
    ensures var parts := Text.Split(version, '.');
      r.Some? ==> Some(r.value.0) == ParseU16(parts[0]) && Some(r.value.1) == ParseU16(parts[1])
                  && r.value.2 == (if |parts| >= 3 then ParseU16(parts[2]).value else 0)
  {
    var parts := Text.Split(version, '.');
    assert ParseU16("0") == Some(0) by {
      assert Text.Decimal(0) == "0";
      Text.ParseDecimal(0, 0x1_0000);
    }
    var major := ParseU16(parts[0]);
    var minor := if |parts| >= 2 then ParseU16(parts[1]) else None;
    var patch := ParseU16(if |parts| >= 3 then parts[2] else "0");
    if major.Some? && minor.Some? && patch.Some? then Some((major.value, minor.value, patch.value))
    else None
  }

  /** The date word of a nightly, its closing parenthesis already removed:
      exactly three dash-separated numbers that fit a year, a month and a
      day. There is no calendar check. */
  function ParseDate(text: string): (r: Option<Dates.Date>)
    ensures var parts := Text.Split(text, '-');
      r.Some? <==> |parts| == 3 && ParseU16(parts[0]).Some? && ParseU8(parts[1]).Some? && ParseU8(parts[2]).Some?
    ensures var parts := Text.Split(text, '-');
      r.Some? ==> forall i :: 0 <= i < 3 ==> Text.ParseUnsigned(parts[i], if i == 0 then 0x1_0000 else 0x100) == Some(Dates.Key(r.value)[i])
  {
    var parts := Text.Split(text, '-');
    if |parts| != 3 then None
    else
      match (ParseU16(parts[0]), ParseU8(parts[1]), ParseU8(parts[2]))
      case (Some(year), Some(month), Some(day)) => Some(Dates.Date(year, month, day))
      case _ => None
  }

  /** The words after `-nightly`: none, or a lone `(hash)`, mean a development
      build; `(hash` followed by `Y-M-D)` is a dated nightly; any other shape
      is unrecognized. */
  function ParseNightly(rest: seq<string>): (r: Option<Channels.Channel>)
    ensures |rest| == 0 ==> r == Some(Channels.Dev)
    ensures |rest| >= 1 && !Text.StartsWith(rest[0], "(") ==> r == None
    ensures |rest| == 1 && Text.StartsWith(rest[0], "(") ==>
      r == if Text.EndsWith(rest[0], ")") then Some(Channels.Dev) else None
    ensures |rest| >= 2 && Text.StartsWith(rest[0], "(") ==>
      r == if Text.EndsWith(rest[1], ")") && ParseDate(rest[1][..|rest[1]| - 1]).Some?
           then Some(Channels.Nightly(ParseDate(rest[1][..|rest[1]| - 1]).value))
           else None
  {
    if |rest| == 0 then Some(Channels.Dev)
    else if !Text.StartsWith(rest[0], "(") then None
    else if |rest| == 1 then
      if Text.EndsWith(rest[0], ")") then Some(Channels.Dev) else None
    else if Text.EndsWith(rest[1], ")") then
      match ParseDate(rest[1][..|rest[1]| - 1])
      case Some(date) => Some(Channels.Nightly(date))
      case None => None
    else None
  }

  /** The text after the first `-` of the version word, if any. */
  function ParseChannel(suffix: Option<string>, rest: seq<string>): (r: Option<Channels.Channel>)
    ensures suffix.None? ==> r == Some(Channels.Stable)
    ensures suffix == Some("dev") ==> r == Some(Channels.Dev)
    ensures suffix.Some? && Text.StartsWith(suffix.value, "beta") ==> r == Some(Channels.Beta)
    ensures suffix == Some("nightly") ==> r == ParseNightly(rest)
    ensures suffix.Some? && suffix.value !in {"dev", "nightly"} && !Text.StartsWith(suffix.value, "beta") ==> r == None
  {
    assert !Text.StartsWith("nightly", "beta") by {
      assert "nightly"[..4][0] == 'n' != 'b' == "beta"[0];
    }
    match suffix
    case None => Some(Channels.Stable)
    case Some(name) =>
      if name == "dev" then Some(Channels.Dev)
      else if Text.StartsWith(name, "beta") then Some(Channels.Beta)
      else if name == "nightly" then ParseNightly(rest)
      else None
  }

  /** The channel suffix of a version word: the second `-`-separated piece. */
  function Suffix(word: string): Option<string> {
    var pieces := Text.Split(word, '-');
    if |pieces| >= 2 then Some(pieces[1]) else None
  }

  /** `parse_words`: the words after `rustc`. */
  function ParseWords(words: seq<string>): (r: Option<Version>)
    ensures r.Some? ==> |words| >= 1
    ensures r.Some? ==> ParseNumbers(Text.Split(words[0], '-')[0]) == Some((r.value.major, r.value.minor, r.value.patch))
    ensures r.Some? ==> ParseChannel(Suffix(words[0]), words[1..]) == Some(r.value.channel)
    ensures (|words| >= 1 && ParseNumbers(Text.Split(words[0], '-')[0]).Some?
             && ParseChannel(Suffix(words[0]), words[1..]).Some?) ==> r.Some?
  {
    if |words| == 0 then None
    else
      match (ParseNumbers(Text.Split(words[0], '-')[0]), ParseChannel(Suffix(words[0]), words[1..]))
      case (Some(numbers), Some(channel)) => Some(Version(numbers.0, numbers.1, numbers.2, channel))
      case _ => None
  }

  /** `parse`: only the trimmed last line is read; its first word decides
      between parsing on, asking for a retry through clippy, or giving up. */
  function Parse(s: string): (r: ParseResult)
    ensures r.Success? <==> Words(s)[0] == "rustc" && ParseWords(Words(s)[1..]).Some?
    ensures r.Success? ==> Some(r.version) == ParseWords(Words(s)[1..])
    ensures r.OopsClippy? <==> Text.StartsWith(Words(s)[0], "clippy")
  {
    var words := Words(s);
    if words[0] == "rustc" then
      match ParseWords(words[1..])
      case Some(v) => Success(v)
      case None => Unrecognized
    else if Text.StartsWith(words[0], "clippy") then OopsClippy
    else Unrecognized
  }

  // ---------------------------------------------------------------------
  // Properties
  // ---------------------------------------------------------------------

  /** Lines before the last one never matter. */
  lemma ParseReadsOnlyLastLine(earlier: string, s: string)
    requires |s| > 0
    ensures Parse(earlier + "\n" + s) == Parse(s)
  {
    LastLineOfLaterText(earlier, s);
    assert Words(earlier + "\n" + s) == Words(s);
  }

  lemma LastLineOfLaterText(earlier: string, s: string)
    requires |s| > 0
    ensures LastLine(earlier + "\n" + s) == LastLine(s)
  {
    var u := Unterminated(s);
    UnterminatedAfterBreak(earlier, s);
    var p := Text.Split(earlier + ['\n'] + u, '\n');
    var q := Text.Split(u, '\n');
    assert p[|p| - 1] == q[|q| - 1] by {
      Text.SplitLastPiece(earlier, '\n', u);
    }
    assert LastLine(earlier + "\n" + s) == DropCarriageReturn(p[|p| - 1]);
    assert LastLine(s) == DropCarriageReturn(q[|q| - 1]);
  }

  /** Only the last line's terminator is removed from a longer text. */
  lemma UnterminatedAfterBreak(earlier: string, s: string)
    requires |s| > 0
    ensures Unterminated(earlier + "\n" + s) == earlier + ['\n'] + Unterminated(s)
  {
    var t := earlier + "\n" + s;
    assert t[|t| - 1] == s[|s| - 1];
    if s[|s| - 1] == '\n' {
      assert t[..|t| - 1] == earlier + ['\n'] + s[..|s| - 1];
    }
  }

  /** For every channel but nightly, the words after the version word are ignored. */
  lemma TrailingWordsIgnored(word: string, rest: seq<string>)
    requires Suffix(word) != Some("nightly")
    ensures ParseWords([word] + rest) == ParseWords([word])
  {
    assert ([word] + rest)[1..] == rest;
  }

  /** A parsed date is the one whose `YYYY-MM-DD` text was read: every
      date, in the calendar or not, survives printing and parsing. */
  lemma ParseFormattedDate(d: Dates.Date)
    ensures ParseDate(Dates.Format(d)) == Some(d)
  {
    Dates.FormatFieldsRoundTrip(d);
    var f := Dates.FormatFields(d);
    Text.ParsePadDecimal(d.year, 4, 0x1_0000);
    Text.ParsePadDecimal(d.month, 2, 0x100);
    Text.ParsePadDecimal(d.day, 2, 0x100);
  }

  /** The displayed form of a threshold, read as a version word, gives the
      numbers of the stable release it names (`to_version`), as long as
      they fit the parser's 16-bit fields. */
  lemma SpecTextReadsAsToVersion(s: Versions.StableVersion)
    requires Versions.SupportedMajor(s.major)
    requires s.minor < 0x1_0000 && s.patch.GetOr(0) < 0x1_0000
    ensures var v := Versions.ToVersion(s);
      ParseNumbers(Versions.SpecText(s)) == Some((v.major as u16, v.minor as u16, v.patch as u16))
  {
    Versions.SpecTextRoundTrip(s);
    Text.ParseDecimal(s.major, 0x1_0000);
    Text.ParseDecimal(s.minor, 0x1_0000);
    if s.patch.Some? {
      Text.ParseDecimal(s.patch.value, 0x1_0000);
    }
    assert Text.ParseUnsigned("0", 0x1_0000) == Some(0);
  }

  // ---------------------------------------------------------------------
  // Round trip through the banner rustc prints
  // ---------------------------------------------------------------------

  /** `MAJOR.MINOR.PATCH` in shortest decimals. */
  function NumbersText(v: Version): string {
    Text.Decimal(v.major) + "." + Text.Decimal(v.minor) + "." + Text.Decimal(v.patch)
  }

  /** The channel name after the dash of the version word. */
  function ChannelName(c: Channels.Channel): string {
    match c
    case Stable => ""
    case Beta => "beta"
    case Nightly(_) => "nightly"
    case Dev => "dev"
  }

  /** The version word: the numbers, then `-name` unless stable. */
  function VersionWord(v: Version): string {
    NumbersText(v) + (if v.channel.Stable? then "" else "-" + ChannelName(v.channel))
  }

  /** The commit words, `(hash` and `date)`: a nightly always carries its own
      build date; another channel carries `built` when given. */
  function CommitWords(c: Channels.Channel, hash: string, built: Option<Dates.Date>): seq<string> {
    match c
    case Nightly(d) => ["(" + hash, Dates.Format(d) + ")"]
    case _ => if built.Some? then ["(" + hash, Dates.Format(built.value) + ")"] else []
  }

  /** The line `rustc --version` prints for `v`, such as
      `rustc 1.81.0-nightly (64e0f2462 2024-07-28)`. */
  function Banner(v: Version, hash: string, built: Option<Dates.Date>): string {
    Text.Join(["rustc", VersionWord(v)] + CommitWords(v.channel, hash, built), ' ')
  }

  /** Every banner parses back to the version it was printed from, whatever
      lines come before it. */
  lemma BannerRoundTrip(v: Version, hash: string, built: Option<Dates.Date>, earlier: string)
    requires forall i :: 0 <= i < |hash| ==> !Text.IsWhitespace(hash[i])
    ensures Parse(Banner(v, hash, built) + "\n") == Success(v)
    ensures Parse(earlier + "\n" + Banner(v, hash, built) + "\n") == Success(v)
  {
    var line := Banner(v, hash, built) + "\n";
    BannerParses(v, hash, built);
    Text.ConcatAssoc(earlier + "\n", Banner(v, hash, built), "\n");
    ParseReadsOnlyLastLine(earlier, line);
  }

  lemma BannerParses(v: Version, hash: string, built: Option<Dates.Date>)
    requires forall i :: 0 <= i < |hash| ==> !Text.IsWhitespace(hash[i])
    ensures Parse(Banner(v, hash, built) + "\n") == Success(v)
  {
    BannerWords(v, hash, built);
    BannerRestParses(v, hash, built);
  }

  /** The banner's words are the ones it was joined from. */
  lemma BannerWords(v: Version, hash: string, built: Option<Dates.Date>)
    requires forall i :: 0 <= i < |hash| ==> !Text.IsWhitespace(hash[i])
    ensures Words(Banner(v, hash, built) + "\n") == ["rustc", VersionWord(v)] + CommitWords(v.channel, hash, built)
  {
    BannerWordsAvoid(v, hash, built);
    BannerLastWord(v, hash, built);
    WordsOfLine(["rustc", VersionWord(v)] + CommitWords(v.channel, hash, built));
  }

  lemma BannerRestParses(v: Version, hash: string, built: Option<Dates.Date>)
    ensures ParseWords((["rustc", VersionWord(v)] + CommitWords(v.channel, hash, built))[1..]) == Some(v)
  {
    assert (["rustc", VersionWord(v)] + CommitWords(v.channel, hash, built))[1..]
        == [VersionWord(v)] + CommitWords(v.channel, hash, built);
    VersionWordParses(v, hash, built);
  }

  /** A line of words, each free of spaces and line breaks, with no
      whitespace at either end, is read back as exactly those words. */
  lemma WordsOfLine(words: seq<string>)
    requires |words| >= 1 && |words[0]| >= 1 && !Text.IsWhitespace(words[0][0])
    requires var last := words[|words| - 1]; |last| >= 1 && !Text.IsWhitespace(last[|last| - 1])
    requires forall i :: 0 <= i < |words| ==> Clean(words[i])
    ensures Words(Text.Join(words, ' ') + "\n") == words
  {
    var line := Text.Join(words, ' ');
    Text.JoinAvoids(words, ' ', '\n');
    assert Unterminated(line + "\n") == line;
    Text.SplitWithoutSep(line, '\n');
    Text.JoinLast(words, ' ');
    Text.JoinFirst(words, ' ');
    Text.TrimUnpadded(line);
    Text.SplitJoin(words, ' ');
  }

  lemma NumbersTextRoundTrip(v: Version)
    ensures ParseNumbers(NumbersText(v)) == Some((v.major, v.minor, v.patch))
  {
    var spec := Versions.StableVersion(v.major, v.minor, Some(v.patch));
    assert NumbersText(v) == Versions.SpecText(spec);
    Versions.SpecTextRoundTrip(spec);
    Text.ParseDecimal(v.major, 0x1_0000);
    Text.ParseDecimal(v.minor, 0x1_0000);
    Text.ParseDecimal(v.patch, 0x1_0000);
  }

  lemma NumbersTextAlphabet(v: Version)
    ensures '-' !in NumbersText(v) && Clean(NumbersText(v))
  {
    Text.NotInDigits('\n', Text.Decimal(v.major));
    Text.NotInDigits('\n', Text.Decimal(v.minor));
    Text.NotInDigits('\n', Text.Decimal(v.patch));
    Text.NotInDigits('-', Text.Decimal(v.major));
    Text.NotInDigits('-', Text.Decimal(v.minor));
    Text.NotInDigits('-', Text.Decimal(v.patch));
    Text.NotInDigits(' ', Text.Decimal(v.major));
    Text.NotInDigits(' ', Text.Decimal(v.minor));
    Text.NotInDigits(' ', Text.Decimal(v.patch));
  }

  lemma FormatHasNoSpace(d: Dates.Date)
    ensures Clean(Dates.Format(d))
  {
    Text.NotInDigits(' ', Text.PadDecimal(d.year, 4));
    Text.NotInDigits(' ', Text.PadDecimal(d.month, 2));
    Text.NotInDigits(' ', Text.PadDecimal(d.day, 2));
    Text.NotInDigits('\n', Text.PadDecimal(d.year, 4));
    Text.NotInDigits('\n', Text.PadDecimal(d.month, 2));
    Text.NotInDigits('\n', Text.PadDecimal(d.day, 2));
  }

  /** No banner word holds a space or a line break, and the last one ends in
      a character that is not whitespace. */
  lemma BannerWordsAvoid(v: Version, hash: string, built: Option<Dates.Date>)
    requires forall i :: 0 <= i < |hash| ==> !Text.IsWhitespace(hash[i])
    ensures var words := ["rustc", VersionWord(v)] + CommitWords(v.channel, hash, built);
      forall i :: 0 <= i < |words| ==> Clean(words[i])
  {
    VersionWordAvoids(v);
    CommitWordsAvoid(v.channel, hash, built);
    assert Clean("rustc");
    PairThenWordsAvoid("rustc", VersionWord(v), CommitWords(v.channel, hash, built));
  }

  lemma PairThenWordsAvoid(a: string, b: string, rest: seq<string>)
    requires Clean(a) && Clean(b)
    requires forall i :: 0 <= i < |rest| ==> Clean(rest[i])
    ensures var words := [a, b] + rest;
      forall i :: 0 <= i < |words| ==> Clean(words[i])
  {
    var words := [a, b] + rest;
    forall i | 0 <= i < |words|
      ensures Clean(words[i])
    {
      if i >= 2 {
        assert words[i] == rest[i - 2];
      }
    }
  }

  /** The last banner word ends in a character that is not whitespace. */
  lemma BannerLastWord(v: Version, hash: string, built: Option<Dates.Date>)
    requires forall i :: 0 <= i < |hash| ==> !Text.IsWhitespace(hash[i])
    ensures var words := ["rustc", VersionWord(v)] + CommitWords(v.channel, hash, built);
      var last := words[|words| - 1];
      |last| >= 1 && !Text.IsWhitespace(last[|last| - 1])
  {
    var cw := CommitWords(v.channel, hash, built);
    var words := ["rustc", VersionWord(v)] + cw;
    CommitWordsAvoid(v.channel, hash, built);
    if |cw| > 0 {
      assert words[|words| - 1] == cw[|cw| - 1];
    } else {
      VersionWordAvoids(v);
      assert words[|words| - 1] == VersionWord(v);
    }
  }

  /** The numbers hold no space or line break and end in a digit. */
  lemma NumbersTextEnd(v: Version)
    ensures var n := NumbersText(v);
      Clean(n) && |n| >= 1 && Text.IsDigit(n[|n| - 1])
  {
    NumbersTextAlphabet(v);
    var d := Text.Decimal(v.patch);
    var n := NumbersText(v);
    assert n[|n| - 1] == d[|d| - 1];
  }

  /** A channel name is a run of lower-case letters, empty only for stable. */
  lemma ChannelNameLetters(c: Channels.Channel)
    ensures var name := ChannelName(c);
      Clean(name) && (|name| == 0 <==> c.Stable?)
      && (|name| > 0 ==> 'a' <= name[|name| - 1] <= 'z')
  {
  }

  lemma VersionWordAvoids(v: Version)
    ensures Clean(VersionWord(v))
    ensures var w := VersionWord(v); |w| >= 1 && !Text.IsWhitespace(w[|w| - 1])
  {
    var n := NumbersText(v);
    var name := ChannelName(v.channel);
    NumbersTextEnd(v);
    ChannelNameLetters(v.channel);
    var w := VersionWord(v);
    if v.channel.Stable? {
      assert w == n;
    } else {
      assert w == n + "-" + name;
      assert w[|w| - 1] == name[|name| - 1];
    }
  }

  /** The words `(hash` and `date)` hold no space or line break, and the
      second ends in `)`. */
  lemma DatedWordsAvoid(hash: string, d: Dates.Date)
    requires Clean(hash)
    ensures var cw := ["(" + hash, Dates.Format(d) + ")"];
      && (forall i :: 0 <= i < |cw| ==> Clean(cw[i]))
      && |cw[1]| >= 1 && cw[1][|cw[1]| - 1] == ')'
  {
    FormatHasNoSpace(d);
  }

  lemma CommitWordsAvoid(c: Channels.Channel, hash: string, built: Option<Dates.Date>)
    requires forall i :: 0 <= i < |hash| ==> !Text.IsWhitespace(hash[i])
    ensures var cw := CommitWords(c, hash, built);
      && (forall i :: 0 <= i < |cw| ==> Clean(cw[i]))
      && (|cw| > 0 ==> |cw[|cw| - 1]| >= 1 && cw[|cw| - 1][|cw[|cw| - 1]| - 1] == ')')
  {
    assert Clean(hash) by {
      assert Text.IsWhitespace(' ') && Text.IsWhitespace('\n');
    }
    match c
    case Nightly(d) =>
      assert CommitWords(c, hash, built) == ["(" + hash, Dates.Format(d) + ")"];
      DatedWordsAvoid(hash, d);
    case _ =>
      if built.Some? {
        assert CommitWords(c, hash, built) == ["(" + hash, Dates.Format(built.value) + ")"];
        DatedWordsAvoid(hash, built.value);
      } else {
        assert CommitWords(c, hash, built) == [];
      }
  }

  lemma VersionWordParses(v: Version, hash: string, built: Option<Dates.Date>)
    ensures ParseWords([VersionWord(v)] + CommitWords(v.channel, hash, built)) == Some(v)
  {
    var word := VersionWord(v);
    var rest := CommitWords(v.channel, hash, built);
    NumbersTextRoundTrip(v);
    VersionWordPieces(v);
    ChannelParses(v, hash, built);
    assert ([word] + rest)[1..] == rest;
  }

  /** The version word splits at its dash into the numbers and the channel name. */
  lemma VersionWordPieces(v: Version)
    ensures Text.Split(VersionWord(v), '-')[0] == NumbersText(v)
    ensures Suffix(VersionWord(v)) == if v.channel.Stable? then None else Some(ChannelName(v.channel))
  {
    var word := VersionWord(v);
    NumbersTextAlphabet(v);
    if v.channel.Stable? {
      assert word == NumbersText(v);
      Text.SplitWithoutSep(word, '-');
    } else {
      var name := ChannelName(v.channel);
      assert '-' !in name;
      assert word == NumbersText(v) + ['-'] + name;
      Text.SplitAtFirstSep(NumbersText(v), '-', name);
      Text.SplitWithoutSep(name, '-');
    }
  }

  lemma ChannelParses(v: Version, hash: string, built: Option<Dates.Date>)
    ensures ParseChannel(if v.channel.Stable? then None else Some(ChannelName(v.channel)),
                         CommitWords(v.channel, hash, built)) == Some(v.channel)
  {
    match v.channel
    case Nightly(d) =>
      var rest := CommitWords(v.channel, hash, built);
      assert Text.StartsWith(rest[0], "(");
      assert Text.EndsWith(rest[1], ")");
      assert rest[1][..|rest[1]| - 1] == Dates.Format(d);
      ParseFormattedDate(d);
      assert ParseNightly(rest) == Some(v.channel);
    case Beta =>
      assert Text.StartsWith("beta", "beta");
    case _ =>
  }
}
