/**
 * How the program reads the output of `7z` (src/zip.rs): the uncompressed size from the
 * summary line of `7z l`, and the password verdict from `7z t`. The process runs are inputs: the
 * functions take the captured stdout and stderr as text.
 */
module Zip {
  import opened Outcomes
  import opened Text

  const WrongPassword: string := "ERROR: Wrong password"
  const AllOk: string := "Everything is Ok"

  // ---------------------------------------------------------------------------
  // get_uncompressed_zip_size
  // ---------------------------------------------------------------------------

  /** `bytes / 1024 + 1`: the number of started 1024-byte units, plus one when `bytes` is a multiple. */
  function SizeUnits(bytes: nat): (k: nat)
    ensures k >= 1
    ensures (k - 1) * 1024 <= bytes < k * 1024
  {
    bytes / 1024 + 1
  }

  /** `output.trim().lines().last()`. */
  function LastLine(listing: string): Option<string> {
    var lines := Lines(Trim(listing));
    if lines == [] then None else Some(lines[|lines| - 1])
  }

  /** The size read from the last line: its third ASCII-whitespace token parsed as a `u64`. */
  function LineSize(line: string): Result<nat> {
    var tokens := Tokens(line);
    if |tokens| < 3 then Err(Panic(UnwrapNone))
    else match ParseU64(tokens[2])
      case None => Err(InvalidNumber)
      case Some(bytes) => Ok(SizeUnits(bytes))
  }

  /**
   * `get_uncompressed_zip_size` on the listing `7z l` printed: a panic when the trimmed listing
   * is empty or its last line has fewer than three tokens, a parse error when the third token
   * is not a `u64`.
   */
  function UncompressedSize(listing: string): Result<nat> {
    match LastLine(listing)
      case None => Err(Panic(UnwrapNone))
      case Some(line) => LineSize(line)
  }

  /** Reading the size fails only by a panic on a missing field or by a parse error, never by I/O. */
  lemma SizeErrors(listing: string)
    ensures UncompressedSize(listing).Err? ==>
      UncompressedSize(listing).error == Panic(UnwrapNone) || UncompressedSize(listing).error == InvalidNumber
  {
  }

  /**
   * The `+ 1` is unconditional: the units always cover strictly more than `bytes`, a whole
   * extra unit when `bytes` is an exact multiple of 1024, and never more than one unit extra.
   */
  lemma SizeUnitsCover(bytes: nat)
    ensures SizeUnits(bytes) * 1024 > bytes
    ensures SizeUnits(bytes) * 1024 <= bytes + 1024
    ensures bytes % 1024 == 0 ==> SizeUnits(bytes) * 1024 == bytes + 1024
  {
    var k := SizeUnits(bytes);
    assert bytes == (bytes / 1024) * 1024 + bytes % 1024;
    assert k * 1024 == (bytes / 1024) * 1024 + 1024;
  }

  /**
   * A summary line of words separated by single spaces whose third word is the decimal byte
   * count yields that count in units.
   */
  lemma SummaryLineSize(words: seq<string>, bytes: nat)
    requires forall i | 0 <= i < |words| :: IsWord(words[i])
    requires |words| >= 3 && words[2] == Decimal(bytes) && bytes <= U64_MAX
    ensures LineSize(JoinSpaced(words)) == Ok(SizeUnits(bytes))
  {
    TokensOfJoin(words);
    DecimalRoundTrip(bytes);
  }

  /** A last line with fewer than three words makes the `unwrap` of `nth(2)` panic. */
  lemma ShortLinePanics(words: seq<string>)
    requires forall i | 0 <= i < |words| :: IsWord(words[i])
    requires |words| < 3
    ensures LineSize(JoinSpaced(words)) == Err(Panic(UnwrapNone))
  {
    TokensOfJoin(words);
  }

  /** A third word that starts with neither a digit nor '+' is a parse error, not a panic. */
  lemma NonNumericIsError(words: seq<string>)
    requires forall i | 0 <= i < |words| :: IsWord(words[i])
    requires |words| >= 3 && words[2] != [] && !IsDigit(words[2][0]) && words[2][0] != '+'
    ensures LineSize(JoinSpaced(words)) == Err(InvalidNumber)
  {
    TokensOfJoin(words);
    AllDigitsIff(words[2]);
  }

  /** A listing of nothing but whitespace has no last line: the `unwrap` of `last()` panics. */
  lemma BlankListingPanics(listing: string)
    requires forall i | 0 <= i < |listing| :: IsWhitespace(listing[i])
    ensures UncompressedSize(listing) == Err(Panic(UnwrapNone))
  {
  }

  lemma {:induction false} TrimStartAppend(a: string, b: string)
    ensures TrimStart(a + b) == if TrimStart(a) == [] then TrimStart(b) else TrimStart(a) + b
    decreases |a|
  {
    if a != [] {
      assert (a + b)[1..] == a[1..] + b;
      TrimStartAppend(a[1..], b);
    } else {
      assert a + b == b;
    }
  }

  lemma {:induction false} TrimDropsWhitespaceSuffix(s: string, trailing: string)
    requires forall i | 0 <= i < |trailing| :: IsWhitespace(trailing[i])
    ensures Trim(s + trailing) == Trim(s)
    decreases |trailing|
  {
    if trailing != [] {
      var init := trailing[..|trailing| - 1];
      assert s + trailing == (s + init) + [trailing[|trailing| - 1]];
      TrimDropsTrailingWhitespace(s + init, trailing[|trailing| - 1]);
      TrimDropsWhitespaceSuffix(s, init);
    } else {
      assert s + trailing == s;
    }
  }

  /** A first line without '\n' is split off at the '\n' after it. */
  lemma LinesCons(first: string, rest: string)
    requires '\n' !in first
    ensures Lines(first + "\n" + rest) == [StripCR(first)] + Lines(rest)
  {
    var t := first + "\n" + rest;
    IndexOfAfter(first, '\n', rest);
    assert t[..|first|] == first;
    assert t[|first| + 1..] == rest;
  }

  /** The text after the final '\n' is the last of `lines()`. */
  lemma {:induction false} LinesEndWith(s: string, line: string)
    requires line != [] && '\n' !in line
    ensures Lines(s + "\n" + line) != [] && Lines(s + "\n" + line)[|Lines(s + "\n" + line)| - 1] == line
    decreases |s|
  {
    var k := IndexOf(s, '\n');
    if k == |s| {
      LinesCons(s, line);
      SingleLine(line);
      LastOfCons(Lines(s + "\n" + line), StripCR(s), Lines(line), line);
    } else {
      var first, rest := s[..k], s[k + 1..];
      assert '\n' !in first by {
        forall j | 0 <= j < |first| ensures first[j] != '\n' { assert first[j] == s[j]; }
      }
      assert s + "\n" + line == first + "\n" + (rest + "\n" + line);
      LinesCons(first, rest + "\n" + line);
      LinesEndWith(rest, line);
      LastOfCons(Lines(s + "\n" + line), StripCR(first), Lines(rest + "\n" + line), line);
    }
  }

  /** A sequence that is one item and then a nonempty tail ends as the tail does. */
  lemma LastOfCons(r: seq<string>, first: string, tail: seq<string>, last: string)
    requires r == [first] + tail && tail != [] && tail[|tail| - 1] == last
    ensures r != [] && r[|r| - 1] == last
  {
    assert r[|r| - 1] == tail[|tail| - 1];
  }

  /** Text that does not start with whitespace is its own `trim_start`. */
  lemma TrimStartKeeps(t: string)
    requires t != [] && !IsWhitespace(t[0])
    ensures TrimStart(t) == t
  {
  }

  /** Text that does not end with whitespace is its own `trim_end`. */
  lemma TrimEndKeeps(t: string)
    requires t != [] && !IsWhitespace(t[|t| - 1])
    ensures TrimEnd(t) == t
  {
  }

  /**
   * Trimming text that ends in a non-blank line removes only the leading whitespace: what is
   * left is the rest of the text before the line, empty or ending in '\n', then the line.
   */
  lemma TrimKeepsLastLine(body: string, summary: string)
    requires summary != [] && '\n' !in summary
    requires !IsWhitespace(summary[0]) && !IsWhitespace(summary[|summary| - 1])
    ensures var rest := TrimStart(body + "\n");
      && Trim(body + "\n" + summary) == rest + summary
      && (rest == [] || rest[|rest| - 1] == '\n')
  {
    TrimStartAppend(body + "\n", summary);
    TrimStartKeepsLast(body + "\n");
    var u := TrimStart(body + "\n");
    if u == [] {
      TrimStartKeeps(summary);
      assert u + summary == summary;
      TrimEndKeeps(summary);
    } else {
      LastOfAppend(u, summary);
      TrimEndKeeps(u + summary);
    }
  }

  /** `trim_start` leaves nothing or keeps the last character. */
  lemma TrimStartKeepsLast(s: string)
    requires s != []
    ensures TrimStart(s) == [] || TrimStart(s)[|TrimStart(s)| - 1] == s[|s| - 1]
  {
  }

  /** A nonempty text without '\n' is one line. */
  lemma SingleLine(line: string)
    requires line != [] && '\n' !in line
    ensures Lines(line) == [line]
  {
    assert IndexOf(line, '\n') == |line|;
  }

  /** The trimmed listing is the trimmed-start text before the summary line, then that line. */
  lemma TrimmedListing(body: string, summary: string, trailing: string)
    requires summary != [] && '\n' !in summary
    requires !IsWhitespace(summary[0]) && !IsWhitespace(summary[|summary| - 1])
    requires forall i | 0 <= i < |trailing| :: IsWhitespace(trailing[i])
    ensures var rest := TrimStart(body + "\n");
      && Trim(body + "\n" + summary + trailing) == rest + summary
      && (rest == [] || rest[|rest| - 1] == '\n')
  {
    TrimDropsWhitespaceSuffix(body + "\n" + summary, trailing);
    TrimKeepsLastLine(body, summary);
  }

  /** A line after nothing or after a '\n' is the last of `lines()`. */
  lemma LastLineAfterNewline(rest: string, line: string)
    requires line != [] && '\n' !in line
    requires rest == [] || rest[|rest| - 1] == '\n'
    ensures Lines(rest + line) != [] && Lines(rest + line)[|Lines(rest + line)| - 1] == line
  {
    if rest == [] {
      assert rest + line == line;
      SingleLine(line);
    } else {
      var pre := rest[..|rest| - 1];
      assert rest + line == pre + "\n" + line;
      LinesEndWith(pre, line);
    }
  }

  /**
   * Whatever precedes the summary line and whatever whitespace follows it, the summary line is
   * the last line of the trimmed listing.
   */
  lemma SummaryIsLastLine(body: string, summary: string, trailing: string)
    requires summary != [] && '\n' !in summary
    requires !IsWhitespace(summary[0]) && !IsWhitespace(summary[|summary| - 1])
    requires forall i | 0 <= i < |trailing| :: IsWhitespace(trailing[i])
    ensures LastLine(body + "\n" + summary + trailing) == Some(summary)
  {
    TrimmedListing(body, summary, trailing);
    LastLineAfterNewline(TrimStart(body + "\n"), summary);
  }

  /** A full listing: the size is the third field of its summary line, in units. */
  lemma ListingSize(body: string, summary: string, trailing: string, bytes: nat)
    requires summary != [] && '\n' !in summary
    requires !IsWhitespace(summary[0]) && !IsWhitespace(summary[|summary| - 1])
    requires forall i | 0 <= i < |trailing| :: IsWhitespace(trailing[i])
    requires |Tokens(summary)| >= 3 && Tokens(summary)[2] == Decimal(bytes) && bytes <= U64_MAX
    ensures UncompressedSize(body + "\n" + summary + trailing) == Ok(SizeUnits(bytes))
  {
    SummaryIsLastLine(body, summary, trailing);
    DecimalRoundTrip(bytes);
  }

  // ---------------------------------------------------------------------------
  // check_password
  // ---------------------------------------------------------------------------

  /** `check_password`: no wrong-password error on stderr, and the all-clear on stdout. */
  predicate PasswordAccepted(stdout: string, stderr: string) {
    !Contains(stderr, WrongPassword) && Contains(stdout, AllOk)
  }

  /** A wrong-password error anywhere on stderr rejects, whatever stdout says. */
  lemma WrongPasswordRejects(stdout: string, before: string, after: string)
    ensures !PasswordAccepted(stdout, before + WrongPassword + after)
  {
    ContainsEmbedded(before, WrongPassword, after);
  }

  /** The all-clear anywhere on stdout accepts when stderr has no wrong-password error. */
  lemma AllClearAccepts(before: string, after: string, stderr: string)
    requires !Contains(stderr, WrongPassword)
    ensures PasswordAccepted(before + AllOk + after, stderr)
  {
    ContainsEmbedded(before, AllOk, after);
  }

  /**
   * `check_password` as a statement about the two outputs: accepted exactly when stdout has
   * the all-clear somewhere in it and stderr has the wrong-password error nowhere.
   */
  lemma PasswordAcceptedIff(stdout: string, stderr: string)
    ensures PasswordAccepted(stdout, stderr) <==>
      (exists before, after :: stdout == before + AllOk + after)
      && !(exists before, after :: stderr == before + WrongPassword + after)
  {
    ContainsIff(stdout, AllOk);
    ContainsIff(stderr, WrongPassword);
  }

  /** A stdout without the all-clear rejects, whatever stderr says (by the definition alone). */
  lemma NoAllClearRejects(stdout: string, stderr: string)
    requires !Contains(stdout, AllOk)
    ensures !PasswordAccepted(stdout, stderr)
  {
  }

  /** Output with no 'E' at all (an empty stdout, say) never holds the all-clear: rejected. */
  lemma NoCapitalERejects(stdout: string, stderr: string)
    requires 'E' !in stdout
    ensures !Contains(stdout, AllOk)
    ensures !PasswordAccepted(stdout, stderr)
  {
    forall i | 0 <= i <= |stdout| - |AllOk| ensures !OccursAt(stdout, AllOk, i) {
      assert stdout[i..i + |AllOk|][0] == stdout[i];
    }
  }
}
