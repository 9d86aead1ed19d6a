/**
 * The two pieces of French localisation in `create_invoice_pdf`: the
 * rewrite of the exchange-rate note through an anchored regular
 * expression, and the payment-method value.
 */
module Localisation {
  import opened Wrappers
  import opened Text
  import opened Calendar
  import opened ExchangeRate

  // ---------------------------------------------------------------------
  // The exchange-rate note.
  // ---------------------------------------------------------------------

  /** The index of the first `c` in `s`, or `|s|` when there is none. */
  function FirstIndexOf(s: string, c: char): (i: nat)
    ensures i <= |s|
    ensures i < |s| ==> s[i] == c
    ensures forall j :: 0 <= j < i ==> s[j] != c
  {
    if s == [] || s[0] == c then 0 else 1 + FirstIndexOf(s[1..], c)
  }

  /** `\d{4}-\d{2}-\d{2}` on exactly ten characters. */
  predicate IsIsoShaped(d: string)
  {
    |d| == 10 && AllDigits(d[..4]) && d[4] == '-' && AllDigits(d[5..7]) && d[7] == '-' && AllDigits(d[8..])
  }

  /** The rate group `[^)]+`: at least one character, none of them a closing parenthesis. */
  predicate IsRateGroup(r: string)
  {
    r != [] && forall i :: 0 <= i < |r| ==> r[i] != ')'
  }

  /**
   * `re.match(r'Applied exchange rate: EUR/USD \(([^)]+)\), according to the ECB for (\d{4}-\d{2}-\d{2})', note)`:
   * the two groups when the note starts with a match. Whatever follows the
   * date is ignored, since the pattern is anchored only at the start.
   */
  function MatchAppliedNote(note: string): (m: Option<(string, string)>)
    ensures m.Some? ==> IsRateGroup(m.value.0) && IsIsoShaped(m.value.1)
  {
    var h := |AppliedHead|;
    if |note| < h || note[..h] != AppliedHead then None
    else
      var rest := note[h..];
      var i := FirstIndexOf(rest, ')');
      if i == 0 || i == |rest| then None
      else
        var after := rest[i..];
        var mid := |AppliedMiddle|;
        if |after| < mid + 10 || after[..mid] != AppliedMiddle || !IsIsoShaped(after[mid .. mid + 10]) then None
        else
          Some((rest[..i], after[mid .. mid + 10]))
  }

  /** A match's groups, with the fixed English texts around them, start the note. */
  lemma MatchAppliedNoteSound(note: string)
    ensures MatchAppliedNote(note).Some? ==>
      var (r, d) := MatchAppliedNote(note).value;
      AppliedHead + r + AppliedMiddle + d <= note
  {
    if MatchAppliedNote(note).Some? {
      var h, mid := |AppliedHead|, |AppliedMiddle|;
      var rest := note[h..];
      var i := FirstIndexOf(rest, ')');
      var after := rest[i..];
      var r, d := rest[..i], after[mid .. mid + 10];
      assert MatchAppliedNote(note).value == (r, d);
      PrefixThenPrefix(AppliedMiddle, d, after);
      PrefixThenPrefix(r, AppliedMiddle + d, rest);
      PrefixThenPrefix(AppliedHead, r + (AppliedMiddle + d), note);
      ConcatRegroup(AppliedHead, r, AppliedMiddle, d);
    }
  }

  /** The first `c` after a prefix free of `c` is the one that starts the remainder. */
  lemma {:induction false} FirstIndexOfAfterPrefix(p: string, x: string, c: char)
    requires forall j :: 0 <= j < |p| ==> p[j] != c
    requires x != [] && x[0] == c
    ensures FirstIndexOf(p + x, c) == |p|
  {
    if p != [] {
      assert (p + x)[0] == p[0];
      assert (p + x)[1..] == p[1..] + x;
      FirstIndexOfAfterPrefix(p[1..], x, c);
    }
  }

  /** Every note of the applied shape matches, with its own rate text and date as the groups. */
  lemma MatchAppliedNoteComplete(r: string, d: string, tail: string)
    requires IsRateGroup(r) && IsIsoShaped(d)
    ensures MatchAppliedNote(AppliedHead + r + AppliedMiddle + d + tail) == Some((r, d))
  {
    var note := AppliedHead + r + AppliedMiddle + d + tail;
    var h, mid := |AppliedHead|, |AppliedMiddle|;
    var after := AppliedMiddle + d + tail;
    var rest := r + after;
    ConcatRegroupTail(AppliedHead, r, AppliedMiddle, d, tail);
    ConcatSplit(AppliedHead, rest);
    FirstIndexOfAfterPrefix(r, after, ')');
    assert rest[|r|..] == after;
    assert after[..mid] == AppliedMiddle && after[mid .. mid + 10] == d;
  }

  /** The French sentence keeps the two groups of an applied note, whatever follows the date. */
  lemma FrenchNoteOfApplied(r: string, d: string, tail: string)
    requires IsRateGroup(r) && IsIsoShaped(d)
    ensures FrenchNote(AppliedHead + r + AppliedMiddle + d + tail) == FrenchHead + r + FrenchMiddle + d
  {
    MatchAppliedNoteComplete(r, d, tail);
  }

  const FrenchHead: string := "Taux de change appliqu\U{00E9} : EUR/USD ("
  const FrenchMiddle: string := "), selon la BCE pour le "

  /** The exchange-rate note of the French document. */
  function FrenchNote(note: string): (fr: string)
    ensures MatchAppliedNote(note).None? ==> fr == note
  {
    match MatchAppliedNote(note)
    case Some((r, d)) => FrenchHead + r + FrenchMiddle + d
    case None => note
  }

  /**
   * A note naming a rate and a date becomes the French sentence with the
   * same rate text and date; the parenthesised remark of a fallback is
   * dropped. A failure note stays as it is.
   */
  lemma FrenchNoteOfSelection<R>(s: Selection<R>, show: R -> string)
    requires !s.Failure? ==> IsRateGroup(show(s.rate)) && IsIsoShaped(s.date)
    ensures s.Failure? ==> FrenchNote(Note(s, show)) == Note(s, show)
    ensures !s.Failure? ==> FrenchNote(Note(s, show)) == FrenchHead + show(s.rate) + FrenchMiddle + s.date
  {
    var note := Note(s, show);
    match s
    case Exact(r, d) =>
      assert note == AppliedHead + show(r) + AppliedMiddle + d + "";
      FrenchNoteOfApplied(show(r), d, "");
    case Fallback(r, d, q) =>
      var why := FallbackWhy;
      ConcatSplitAfterFour(AppliedHead, show(r), AppliedMiddle, d, why, q, ")");
      FrenchNoteOfApplied(show(r), d, why + q + ")");
    case Latest(r, d, q) =>
      var why := LatestWhy;
      ConcatSplitAfterFour(AppliedHead, show(r), AppliedMiddle, d, why, q, ")");
      FrenchNoteOfApplied(show(r), d, why + q + ")");
    case Failure(e) =>
      assert !(AppliedHead <= note);
  }

  /** Every `%Y-%m-%d` rendering of a date has the shape the date group of the pattern accepts. */
  lemma IsoShapedFormatISO(d: Date)
    requires Valid(d)
    ensures IsIsoShaped(FormatISO(d))
  {
    var y, m, dd := Fixed(d.year, 4), Fixed(d.month, 2), Fixed(d.day, 2);
    var s := FormatISO(d);
    assert s == y + ("-" + (m + ("-" + dd)));
    assert s[..4] == y && s[5..7] == m && s[8..] == dd;
  }

  /**
   * The note the rate update writes for an invoice date translates to the
   * French sentence on the same rate and date whenever the feed's dates are
   * `%Y-%m-%d` keys and the rate rendering has no closing parenthesis; an
   * exact match names the invoice date itself.
   */
  lemma FrenchNoteOfResolved<R>(feed: Feed<R>, today: Date, show: R -> string)
    requires Valid(today)
    requires forall r :: IsRateGroup(show(r))
    requires feed.Fetched? ==> forall i :: 0 <= i < |feed.cubes| ==> IsIsoShaped(feed.cubes[i].time)
    ensures var s := Resolve(feed, today);
      && (s.Failure? ==> FrenchNote(Note(s, show)) == Note(s, show))
      && (!s.Failure? ==> FrenchNote(Note(s, show)) == FrenchHead + show(s.rate) + FrenchMiddle + s.date)
      && (s.Exact? ==> FrenchNote(Note(s, show)) == FrenchHead + show(s.rate) + FrenchMiddle + FormatISO(today))
  {
    var s := Resolve(feed, today);
    ResolveMeaning(feed, today);
    FrenchNoteOfSelection(s, show);
  }

  // ---------------------------------------------------------------------
  // The payment-method value.
  // ---------------------------------------------------------------------

  datatype Language = English | French

  /** `str.isspace()` for one character. */
  predicate IsSpace(c: char)
  {
    || '\t' <= c <= '\r' || '\U{1C}' <= c <= '\U{1F}' || c == ' '
    || c == '\U{85}' || c == '\U{A0}' || c == '\U{1680}' || '\U{2000}' <= c <= '\U{200A}'
    || c == '\U{2028}' || c == '\U{2029}' || c == '\U{202F}' || c == '\U{205F}' || c == '\U{3000}'
  }

  predicate AllSpace(s: string)
  {
    forall i :: 0 <= i < |s| ==> IsSpace(s[i])
  }

  /** How many whitespace characters `s.lstrip()` removes: it stops at the first other character. */
  function LeadingSpaces(s: string): (k: nat)
    ensures k <= |s|
    ensures k < |s| ==> !IsSpace(s[k])
  {
    if s != [] && IsSpace(s[0]) then LeadingSpaces(s[1..]) + 1 else 0
  }

  /** Everything `s.lstrip()` removes is whitespace. */
  lemma {:induction false} LeadingSpacesAreSpace(s: string)
    ensures AllSpace(s[..LeadingSpaces(s)])
  {
    if s != [] && IsSpace(s[0]) {
      var k := LeadingSpaces(s[1..]);
      LeadingSpacesAreSpace(s[1..]);
      assert s[..k + 1] == [s[0]] + s[1..][..k];
    }
  }

  /** How many whitespace characters `s.rstrip()` removes: it stops at the last other character. */
  function TrailingSpaces(s: string): (k: nat)
    ensures k <= |s|
    ensures k < |s| ==> !IsSpace(s[|s| - k - 1])
  {
    if s != [] && IsSpace(s[|s| - 1]) then TrailingSpaces(s[..|s| - 1]) + 1 else 0
  }

  /** Everything `s.rstrip()` removes is whitespace. */
  lemma {:induction false} TrailingSpacesAreSpace(s: string)
    ensures AllSpace(s[|s| - TrailingSpaces(s)..])
  {
    if s != [] && IsSpace(s[|s| - 1]) {
      var init := s[..|s| - 1];
      var k := TrailingSpaces(init);
      TrailingSpacesAreSpace(init);
      var tail, initTail := s[|s| - (k + 1)..], init[|init| - k..];
      forall i | 0 <= i < k + 1 ensures IsSpace(tail[i]) {
        if i < k {
          assert tail[i] == initTail[i];
        } else {
          assert tail[i] == s[|s| - 1];
        }
      }
    }
  }

  /** `s.strip()`: whitespace removed at both ends. */
  function Strip(s: string): (r: string)
    ensures |r| <= |s|
    ensures r == [] || (!IsSpace(r[0]) && !IsSpace(r[|r| - 1]))
  {
    var a := LeadingSpaces(s);
    var rest := s[a..];
    var b := TrailingSpaces(rest);
    var r := rest[..|rest| - b];
    assert r != [] ==> r[0] == s[a] && r[|r| - 1] == rest[|rest| - b - 1];
    r
  }

  /** What `Strip` removes is whitespace only: the input is the result between two runs of whitespace. */
  lemma StripRemovesOnlySpace(s: string)
    ensures exists lead, trail :: AllSpace(lead) && AllSpace(trail) && s == lead + Strip(s) + trail
  {
    var a := LeadingSpaces(s);
    var rest := s[a..];
    var b := TrailingSpaces(rest);
    LeadingSpacesAreSpace(s);
    TrailingSpacesAreSpace(rest);
    assert Strip(s) == rest[..|rest| - b];
    assert rest[..|rest| - b] == s[a..|s| - b] && rest[|rest| - b..] == s[|s| - b..];
    SpaceAround(s, a, b, Strip(s));
  }

  lemma SpaceAround(s: string, a: nat, b: nat, r: string)
    requires a + b <= |s| && AllSpace(s[..a]) && AllSpace(s[|s| - b..]) && r == s[a..|s| - b]
    ensures exists lead, trail :: AllSpace(lead) && AllSpace(trail) && s == lead + r + trail
  {
    assert s == s[..a] + r + s[|s| - b..];
  }

  /**
   * `str.lower()` on the letters that can lower-case into "transfer":
   * only the ASCII capitals do (no other character's lower case is a
   * single one of t, r, a, n, s, f, e).
   */
  function LowerAscii(s: string): (r: string)
    ensures |r| == |s|
    ensures forall i :: 0 <= i < |s| ==> r[i] == LowerChar(s[i])
  {
    if s == [] then []
    else [LowerChar(s[0])] + LowerAscii(s[1..])
  }

  /** One character of `LowerAscii`: capitals A to Z move to their small letters, everything else stays. */
  function LowerChar(c: char): char
  {
    if 'A' <= c <= 'Z' then (c as int + 32) as char else c
  }

  /**
   * Lower-casing leaves no capital letter, changes nothing but capitals,
   * and a second lower-casing changes nothing.
   */
  lemma LowerAsciiLowers(s: string)
    ensures var r := LowerAscii(s);
      && (forall i :: 0 <= i < |r| ==> !('A' <= r[i] <= 'Z'))
      && (forall i :: 0 <= i < |s| && !('A' <= s[i] <= 'Z') ==> r[i] == s[i])
      && LowerAscii(r) == r
  {
    var r := LowerAscii(s);
    forall i | 0 <= i < |r| ensures LowerAscii(r)[i] == r[i] {
      assert r[i] == LowerChar(s[i]);
    }
  }

  /** The configured payment method reads "transfer" once trimmed and lower-cased. */
  predicate IsTransfer(v: string)
  {
    LowerAscii(Strip(v)) == "transfer"
  }

  /**
   * `v` reads "transfer" in the sense of the source: whitespace, then the
   * eight letters of "transfer" in any mix of capitals and small letters,
   * then whitespace.
   */
  ghost predicate TransferSpelled(v: string)
  {
    exists lead, core, trail ::
      AllSpace(lead) && AllSpace(trail) && v == lead + core + trail && LowerAscii(core) == "transfer"
  }

  /** Whitespace in front of a non-whitespace character is exactly what `lstrip` removes. */
  lemma {:induction false} LeadingSpacesOf(lead: string, x: string)
    requires AllSpace(lead) && x != [] && !IsSpace(x[0])
    ensures LeadingSpaces(lead + x) == |lead|
  {
    if lead != [] {
      assert (lead + x)[1..] == lead[1..] + x;
      LeadingSpacesOf(lead[1..], x);
    } else {
      assert lead + x == x;
    }
  }

  /** Whitespace after a non-whitespace character is exactly what `rstrip` removes. */
  lemma {:induction false} TrailingSpacesOf(x: string, trail: string)
    requires AllSpace(trail) && x != [] && !IsSpace(x[|x| - 1])
    ensures TrailingSpaces(x + trail) == |trail|
  {
    if trail != [] {
      var s := x + trail;
      var init := trail[..|trail| - 1];
      assert s[..|s| - 1] == x + init;
      assert s[|s| - 1] == trail[|trail| - 1];
      TrailingSpacesOf(x, init);
    } else {
      assert x + trail == x;
    }
  }

  /** A character that lower-cases to a small letter is not whitespace. */
  lemma LetterIsNotSpace(c: char)
    requires 'a' <= LowerChar(c) <= 'z'
    ensures !IsSpace(c)
  {
    if !('A' <= c <= 'Z') {
      assert c == LowerChar(c);
    }
  }

  /** The letters of "transfer", in either case, are not whitespace. */
  lemma TransferLettersAreNotSpace(core: string)
    requires LowerAscii(core) == "transfer"
    ensures |core| == 8 && !IsSpace(core[0]) && !IsSpace(core[7])
  {
    var low := LowerAscii(core);
    assert low[0] == 't' && low[7] == 'r';
    LetterIsNotSpace(core[0]);
    LetterIsNotSpace(core[7]);
  }

  /** Stripping whitespace from around a word that starts and ends with other characters gives the word. */
  lemma StripAround(lead: string, core: string, trail: string)
    requires AllSpace(lead) && AllSpace(trail) && core != [] && !IsSpace(core[0]) && !IsSpace(core[|core| - 1])
    ensures Strip(lead + core + trail) == core
  {
    var v := lead + core + trail;
    assert v == lead + (core + trail);
    LeadingSpacesOf(lead, core + trail);
    assert v[|lead|..] == core + trail;
    TrailingSpacesOf(core, trail);
    assert (core + trail)[..|core|] == core;
  }

  /** Every value `IsTransfer` accepts spells "transfer" between whitespace. */
  lemma IsTransferSpelled(v: string)
    requires IsTransfer(v)
    ensures TransferSpelled(v)
  {
    StripRemovesOnlySpace(v);
    var lead, trail :| AllSpace(lead) && AllSpace(trail) && v == lead + Strip(v) + trail;
  }

  /** `IsTransfer` holds exactly for the values that spell "transfer" between whitespace. */
  lemma IsTransferMeaning(v: string)
    ensures IsTransfer(v) <==> TransferSpelled(v)
  {
    if IsTransfer(v) {
      IsTransferSpelled(v);
    }
    if TransferSpelled(v) {
      var lead, core, trail :| AllSpace(lead) && AllSpace(trail) && v == lead + core + trail && LowerAscii(core) == "transfer";
      TransferLettersAreNotSpace(core);
      StripAround(lead, core, trail);
    }
  }

  /**
   * The value printed after the payment-method label: a space, then the
   * configured value exactly as written, except that a transfer in the
   * French document is printed as "Virement".
   */
  function PaymentMethodText(lang: Language, v: string): (text: string)
    ensures |text| > 0 && text[0] == ' '
    ensures text[1..] != v ==> lang == French && IsTransfer(v) && text[1..] == "Virement"
  {
    if lang == French && IsTransfer(v) then " Virement" else " " + v
  }

  /**
   * The French document says " Virement" exactly when the value is a
   * transfer in any capitalisation and any surrounding whitespace, and
   * otherwise prints the value as the English one does.
   */
  lemma FrenchPaymentMethod(v: string)
    ensures IsTransfer(v) ==> PaymentMethodText(French, v) == " Virement"
    ensures !IsTransfer(v) ==> PaymentMethodText(French, v) == PaymentMethodText(English, v)
    ensures PaymentMethodText(French, v) == " Virement" <==> IsTransfer(v) || v == "Virement"
  {
    if PaymentMethodText(French, v) == " Virement" && !IsTransfer(v) {
      assert " " + v == " Virement";
      assert v == (" " + v)[1..];
    }
  }

  lemma LowerAsciiExample()
    ensures LowerAscii("Transfer") == "transfer"
  {
    var s, r := "Transfer", LowerAscii("Transfer");
    assert r[0] == LowerChar('T') == 't';
    forall i | 1 <= i < 8 ensures r[i] == "transfer"[i] {
      assert !('A' <= s[i] <= 'Z') && s[i] == "transfer"[i];
    }
    assert |r| == |"transfer"|;
  }

  lemma StripExample()
    ensures Strip("  Transfer\n") == "Transfer"
  {
    var v := "  Transfer\n";
    var a := LeadingSpaces(v);
    assert IsSpace(v[0]) && IsSpace(v[1]) && !IsSpace(v[2]);
    assert a == 2;
    var rest := v[2..];
    assert rest == "Transfer\n";
    var b := TrailingSpaces(rest);
    assert IsSpace(rest[8]) && !IsSpace(rest[7]);
    assert b == 1;
    assert rest[..8] == "Transfer";
  }

  /** A capitalised value with surrounding whitespace is still a transfer. */
  lemma TransferExample()
    ensures PaymentMethodText(French, "  Transfer\n") == " Virement"
  {
    StripExample();
    LowerAsciiExample();
  }
}
