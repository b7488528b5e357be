/** What the parser makes of the shapes of `rustc --version` output that
    the banner round trip does not cover: other beta tags, nightlies without
    a date, malformed dates and numbers, other tools, and a blank last line. */
module ParserCases {
  import opened Primitives
  import Text
  import Channels
  import Rustc

  /** No whitespace anywhere in the text. */
  predicate Solid(w: string) {
    forall i :: 0 <= i < |w| ==> !Text.IsWhitespace(w[i])
  }

  lemma SolidIsClean(w: string)
    requires Solid(w)
    ensures Rustc.Clean(w)
  {
    assert Text.IsWhitespace(' ') && Text.IsWhitespace('\n');
  }

  // ---------------------------------------------------------------------
  // Lines of words
  // ---------------------------------------------------------------------

  /** The output line made of `words` separated by single spaces. */
  function Line(words: seq<string>): string
    requires |words| >= 1
  {
    Text.Join(words, ' ') + "\n"
  }

  /** A line of clean words, with no whitespace at either end, reads as those words. */
  lemma LineWords(words: seq<string>)
    requires |words| >= 1 && |words[0]| >= 1 && !Text.IsWhitespace(words[0][0])
    requires var last := words[|words| - 1]; |last| >= 1 && !Text.IsWhitespace(last[|last| - 1])
    requires forall i :: 0 <= i < |words| ==> Rustc.Clean(words[i])
    ensures Rustc.Words(Line(words)) == words
  {
    Rustc.WordsOfLine(words);
  }

  /** Reading a line that starts with `rustc` is reading the words after it. */
  lemma ReadsAfterRustc(s: string, rest: seq<string>, r: Option<Rustc.Version>)
    requires Rustc.Words(s) == ["rustc"] + rest
    requires Rustc.ParseWords(rest) == r
    ensures Rustc.Parse(s) == if r.Some? then Rustc.Success(r.value) else Rustc.Unrecognized
  {
    assert (["rustc"] + rest)[1..] == rest;
    assert !Text.StartsWith("rustc", "clippy");
  }

  /** The output line `rustc` followed by `rest`. */
  function RustcLine(rest: seq<string>): string {
    Line(["rustc"] + rest)
  }

  /** A line `rustc` then clean words splits back into those words. */
  lemma RustcLineWords(rest: seq<string>)
    requires |rest| >= 1 && forall i :: 0 <= i < |rest| ==> Rustc.Clean(rest[i])
    requires var last := rest[|rest| - 1]; |last| >= 1 && !Text.IsWhitespace(last[|last| - 1])
    ensures Rustc.Words(RustcLine(rest)) == ["rustc"] + rest
  {
    var words := ["rustc"] + rest;
    forall i | 0 <= i < |words|
      ensures Rustc.Clean(words[i])
    {
      if i > 0 {
        assert words[i] == rest[i - 1];
      }
    }
    assert words[|words| - 1] == rest[|rest| - 1];
    LineWords(words);
  }

  /** A line `rustc` then clean words reads as what the parser makes of those words. */
  lemma ReadsLine(rest: seq<string>, r: Option<Rustc.Version>)
    requires |rest| >= 1 && forall i :: 0 <= i < |rest| ==> Rustc.Clean(rest[i])
    requires var last := rest[|rest| - 1]; |last| >= 1 && !Text.IsWhitespace(last[|last| - 1])
    requires Rustc.ParseWords(rest) == r
    ensures Rustc.Parse(RustcLine(rest)) == if r.Some? then Rustc.Success(r.value) else Rustc.Unrecognized
  {
    RustcLineWords(rest);
    ReadsAfterRustc(RustcLine(rest), rest, r);
  }

  // ---------------------------------------------------------------------
  // Version words with a channel suffix
  // ---------------------------------------------------------------------

  /** `NUMBERS-SUFFIX` splits at its dash into the numbers and the suffix. */
  lemma SuffixedWord(numbers: string, suffix: string)
    requires '-' !in numbers && '-' !in suffix
    ensures Text.Split(numbers + "-" + suffix, '-')[0] == numbers
    ensures Rustc.Suffix(numbers + "-" + suffix) == Some(suffix)
  {
    assert numbers + "-" + suffix == numbers + ['-'] + suffix;
    Text.SplitAtFirstSep(numbers, '-', suffix);
    Text.SplitWithoutSep(suffix, '-');
  }

  /** Dash pieces after the suffix are never read: `1.2.3-dev-extra` has the
      numbers `1.2.3` and the suffix `dev`. */
  lemma ExtraDashPieces(numbers: string, suffix: string, extra: string)
    requires '-' !in numbers && '-' !in suffix
    ensures var w := numbers + "-" + suffix + "-" + extra;
      Text.Split(w, '-')[0] == numbers && Rustc.Suffix(w) == Some(suffix)
  {
    var tail := suffix + ['-'] + extra;
    var w := numbers + "-" + suffix + "-" + extra;
    assert w == numbers + ['-'] + tail;
    var pieces := Text.Split(w, '-');
    assert pieces == [numbers] + Text.Split(tail, '-') by {
      Text.SplitAtFirstSep(numbers, '-', tail);
    }
    assert Text.Split(tail, '-') == [suffix] + Text.Split(extra, '-') by {
      Text.SplitAtFirstSep(suffix, '-', extra);
    }
    assert pieces[1] == suffix;
  }

  /** A version word with a suffix reads as the version whose channel the
      suffix and the words after it give. */
  lemma SuffixedVersion(v: Rustc.Version, suffix: string, rest: seq<string>)
    requires '-' !in suffix
    requires Rustc.ParseChannel(Some(suffix), rest) == Some(v.channel)
    ensures Rustc.ParseWords([Rustc.NumbersText(v) + "-" + suffix] + rest) == Some(v)
  {
    Rustc.NumbersTextAlphabet(v);
    Rustc.NumbersTextRoundTrip(v);
    SuffixedWord(Rustc.NumbersText(v), suffix);
    assert ([Rustc.NumbersText(v) + "-" + suffix] + rest)[1..] == rest;
  }

  /** A `-nightly` version word reads as the version whose channel the
      nightly words after it give. */
  lemma NightlyVersion(v: Rustc.Version, rest: seq<string>)
    requires Rustc.ParseNightly(rest) == Some(v.channel)
    ensures Rustc.ParseWords([Rustc.NumbersText(v) + "-" + "nightly"] + rest) == Some(v)
  {
    SuffixedVersion(v, "nightly", rest);
  }

  lemma VersionWordEnd(v: Rustc.Version, suffix: string)
    requires |suffix| >= 1 && Rustc.Clean(suffix) && !Text.IsWhitespace(suffix[|suffix| - 1])
    ensures var w := Rustc.NumbersText(v) + "-" + suffix;
      |w| >= 1 && Rustc.Clean(w) && !Text.IsWhitespace(w[|w| - 1])
  {
    Rustc.NumbersTextAlphabet(v);
    var w := Rustc.NumbersText(v) + "-" + suffix;
    assert w[|w| - 1] == suffix[|suffix| - 1];
  }

  // ---------------------------------------------------------------------
  // Successful readings beyond the printed banners
  // ---------------------------------------------------------------------

  /** Any text after `beta` in the suffix, such as the `.2` of
      `rustc 1.60.0-beta.2`, still reads as beta. */
  lemma BetaTag(v: Rustc.Version, tag: string)
    requires v.channel.Beta?
    requires '-' !in tag && Solid(tag)
    ensures Rustc.Parse(RustcLine([Rustc.NumbersText(v) + "-" + ("beta" + tag)])) == Rustc.Success(v)
  {
    var suffix := "beta" + tag;
    var w := Rustc.NumbersText(v) + "-" + suffix;
    assert Rustc.Clean(suffix) && '-' !in suffix && !Text.IsWhitespace(suffix[|suffix| - 1]) by {
      SolidIsClean(tag);
      assert suffix[|suffix| - 1] == if |tag| > 0 then tag[|tag| - 1] else 'a';
    }
    VersionWordEnd(v, suffix);
    assert Rustc.ParseWords([w]) == Some(v) by {
      assert Text.StartsWith(suffix, "beta") by {
        assert suffix[..4] == "beta";
      }
      SuffixedVersion(v, suffix, []);
      assert [w] + [] == [w];
    }
    ReadsLine([w], Some(v));
  }

  /** `rustc 1.81.0-nightly` with nothing after it is a development build. */
  lemma BareNightly(v: Rustc.Version)
    requires v.channel.Dev?
    ensures Rustc.Parse(RustcLine([Rustc.NumbersText(v) + "-" + "nightly"])) == Rustc.Success(v)
  {
    var w := Rustc.NumbersText(v) + "-" + "nightly";
    VersionWordEnd(v, "nightly");
    BareNightlyWords(v);
    ReadsLine([w], Some(v));
  }

  lemma BareNightlyWords(v: Rustc.Version)
    requires v.channel.Dev?
    ensures Rustc.ParseWords([Rustc.NumbersText(v) + "-" + "nightly"]) == Some(v)
  {
    var w := Rustc.NumbersText(v) + "-" + "nightly";
    NightlyVersion(v, []);
    assert [w] + [] == [w];
  }

  /** `rustc 1.81.0-nightly (64e0f2462)`: a nightly whose parenthesised
      commit word closes without a date is a development build. */
  lemma UndatedNightly(v: Rustc.Version, hash: string)
    requires v.channel.Dev?
    requires Solid(hash)
    ensures Rustc.Parse(RustcLine([Rustc.NumbersText(v) + "-" + "nightly", "(" + hash + ")"])) == Rustc.Success(v)
  {
    var w := Rustc.NumbersText(v) + "-" + "nightly";
    var h := "(" + hash + ")";
    VersionWordEnd(v, "nightly");
    assert Rustc.Clean(h) && h[|h| - 1] == ')' by {
      SolidIsClean(hash);
    }
    UndatedNightlyWords(v, hash);
    ReadsLine([w, h], Some(v));
  }

  lemma UndatedNightlyWords(v: Rustc.Version, hash: string)
    requires v.channel.Dev?
    ensures Rustc.ParseWords([Rustc.NumbersText(v) + "-" + "nightly", "(" + hash + ")"]) == Some(v)
  {
    var w := Rustc.NumbersText(v) + "-" + "nightly";
    var h := "(" + hash + ")";
    assert Text.StartsWith(h, "(") && Text.EndsWith(h, ")");
    NightlyVersion(v, [h]);
    assert [w] + [h] == [w, h];
  }

  /** A lone parenthesised word after `-nightly` means a development build. */
  lemma ClosedCommitWord(hash: string)
    ensures Rustc.ParseChannel(Some("nightly"), ["(" + hash + ")"]) == Some(Channels.Dev)
  {
    var h := "(" + hash + ")";
    assert Text.StartsWith(h, "(") && Text.EndsWith(h, ")");
    assert Rustc.ParseNightly([h]) == Some(Channels.Dev);
  }

  // ---------------------------------------------------------------------
  // Rejections
  // ---------------------------------------------------------------------

  /** A date word with four dash-separated parts, such as `2024-07-28-01)`,
      is not a date, so the nightly is not recognized. */
  lemma FourPartDate(hash: string, a: string, b: string, c: string, d: string)
    requires '-' !in a && '-' !in b && '-' !in c && '-' !in d
    ensures Rustc.ParseNightly(["(" + hash, Text.Join([a, b, c, d], '-') + ")"]) == None
  {
    var parts := [a, b, c, d];
    var date := Text.Join(parts, '-');
    Text.SplitJoin(parts, '-');
    var last := date + ")";
    assert last[..|last| - 1] == date;
    assert Text.StartsWith("(" + hash, "(") && Text.EndsWith(last, ")");
  }

  /** The three numbers as shortest decimals. */
  function Fields(major: nat, minor: nat, patch: nat): seq<string> {
    [Text.Decimal(major), Text.Decimal(minor), Text.Decimal(patch)]
  }

  /** The three numbers as dotted shortest decimals, any size. */
  function Dotted(major: nat, minor: nat, patch: nat): string {
    Text.Join(Fields(major, minor, patch), '.')
  }

  /** The characters that frame words and numbers never occur in a decimal. */
  lemma DecimalAvoids(n: nat)
    ensures var d := Text.Decimal(n); '.' !in d && '-' !in d && Rustc.Clean(d)
  {
    var d := Text.Decimal(n);
    Text.NotInDigits('.', d);
    Text.NotInDigits(' ', d);
    Text.NotInDigits('\n', d);
    Text.NotInDigits('-', d);
  }

  /** No decimal field holds a dot, a dash, a space or a line break. */
  lemma FieldsAvoid(major: nat, minor: nat, patch: nat)
    ensures var f := Fields(major, minor, patch);
      forall i :: 0 <= i < |f| ==> '.' !in f[i] && '-' !in f[i] && Rustc.Clean(f[i])
  {
    DecimalAvoids(major);
    DecimalAvoids(minor);
    DecimalAvoids(patch);
  }

  /** The dotted text splits at its dots into the three decimals. */
  lemma DottedSplits(major: nat, minor: nat, patch: nat)
    ensures Text.Split(Dotted(major, minor, patch), '.') == Fields(major, minor, patch)
  {
    FieldsAvoid(major, minor, patch);
    Text.SplitJoin(Fields(major, minor, patch), '.');
  }

  /** The dotted text is one clean word without a dash, ending in a digit. */
  lemma DottedWord(major: nat, minor: nat, patch: nat)
    ensures var w := Dotted(major, minor, patch);
      Rustc.Clean(w) && '-' !in w && |w| >= 1 && !Text.IsWhitespace(w[|w| - 1])
  {
    var f := Fields(major, minor, patch);
    FieldsAvoid(major, minor, patch);
    Text.JoinAvoids(f, '.', ' ');
    Text.JoinAvoids(f, '.', '\n');
    Text.JoinAvoids(f, '.', '-');
    Text.JoinLast(f, '.');
    assert Text.IsDigit(f[2][|f[2]| - 1]);
  }

  /** A version number of 65536 or more, such as `rustc 1.65536.0`, does not
      fit the parser's 16 bits and the output is not recognized. */
  lemma Overflow(major: nat, minor: nat, patch: nat)
    requires major >= 0x1_0000 || minor >= 0x1_0000 || patch >= 0x1_0000
    ensures Rustc.Parse(RustcLine([Dotted(major, minor, patch)])) == Rustc.Unrecognized
  {
    var w := Dotted(major, minor, patch);
    DottedWord(major, minor, patch);
    assert Rustc.ParseWords([w]) == None by {
      Text.SplitWithoutSep(w, '-');
      DottedSplits(major, minor, patch);
      if major >= 0x1_0000 {
        Text.ParseOverflow(Text.Decimal(major), 0x1_0000);
      } else if minor >= 0x1_0000 {
        Text.ParseOverflow(Text.Decimal(minor), 0x1_0000);
      } else {
        Text.ParseOverflow(Text.Decimal(patch), 0x1_0000);
      }
      assert Rustc.ParseNumbers(Text.Split(w, '-')[0]) == None;
    }
    ReadsLine([w], None);
  }

  /** A lone number, with no minor version, is not recognized. */
  lemma MissingMinor(w: string)
    requires |w| >= 1 && Text.AllDigits(w)
    ensures Rustc.Parse(RustcLine([w])) == Rustc.Unrecognized
  {
    assert Rustc.Clean(w) && !Text.IsWhitespace(w[|w| - 1]) by {
      Text.NotInDigits(' ', w);
      Text.NotInDigits('\n', w);
      assert Text.IsDigit(w[|w| - 1]);
    }
    assert Rustc.ParseWords([w]) == None by {
      Text.NotInDigits('-', w);
      Text.NotInDigits('.', w);
      Text.SplitWithoutSep(w, '-');
      Text.SplitWithoutSep(w, '.');
      assert Rustc.ParseNumbers(Text.Split(w, '-')[0]) == None;
    }
    ReadsLine([w], None);
  }

  /** A banner from another tool: clippy's driver asks for a retry, anything
      else is not recognized. */
  lemma OtherTool(word: string, rest: seq<string>)
    requires word != "rustc" && |word| >= 1 && !Text.IsWhitespace(word[0])
    requires forall i :: 0 <= i < |[word] + rest| ==> Rustc.Clean(([word] + rest)[i])
    requires var last := ([word] + rest)[|rest|]; |last| >= 1 && !Text.IsWhitespace(last[|last| - 1])
    ensures Rustc.Parse(Line([word] + rest))
         == if Text.StartsWith(word, "clippy") then Rustc.OopsClippy else Rustc.Unrecognized
  {
    LineWords([word] + rest);
  }

  /** A blank last line, empty or made only of White_Space, is read on its
      own and is never recognized, as when the output ends in an empty line. */
  lemma BlankLastLine(s: string, blank: string)
    requires forall i :: 0 <= i < |blank| ==> Text.IsWhitespace(blank[i]) && blank[i] != '\n'
    ensures Rustc.Parse(s + "\n" + blank + "\n") == Rustc.Unrecognized
  {
    var t := s + "\n" + blank + "\n";
    assert Rustc.LastLine(t) == Rustc.DropCarriageReturn(blank) by {
      BlankLastPiece(s, blank);
    }
    assert Text.Trim(Rustc.LastLine(t)) == "" by {
      Text.TrimBlank(Rustc.DropCarriageReturn(blank));
    }
    assert Rustc.Words(t) == [""];
  }

  lemma BlankLastPiece(s: string, blank: string)
    requires '\n' !in blank
    ensures Rustc.LastLine(s + "\n" + blank + "\n") == Rustc.DropCarriageReturn(blank)
  {
    var t := s + "\n" + blank + "\n";
    Text.ConcatAssoc(s + "\n", blank, "\n");
    Rustc.UnterminatedAfterBreak(s, blank + "\n");
    assert Rustc.Unterminated(blank + "\n") == blank;
    Text.SplitLastPiece(s, '\n', blank);
    Text.SplitWithoutSep(blank, '\n');
  }
}
