/** The avatar initials shown beside each participant (app.js line 55-56). */
module Avatar {
  import opened Strings

  /** Shown when the part of the email before the first '@' is empty. */
  const FALLBACK := "U"

  /** `p.split("@")[0] || ""`: the text before the first '@' (the `|| ""` never fires, as split always yields an element). */
  function LocalPart(email: string): (lp: string)
    ensures lp <= email && '@' !in lp
    ensures |lp| < |email| ==> email[|lp|] == '@'
  {
    TakeUntil(email, '@')
  }

  /** `(LocalPart).slice(0, 2).toUpperCase()`, before the fallback is applied. */
  function Abbreviation(email: string): (abbr: string)
    ensures |abbr| <= 2
    ensures abbr == [] <==> LocalPart(email) == []
  {
    ToUpper(Slice(LocalPart(email), 2))
  }

  /** What the avatar span shows: `initials || "U"`. */
  function Initials(email: string): (r: string)
    ensures 1 <= |r| <= 2
  {
    var abbr := Abbreviation(email);
    if abbr == [] then FALLBACK else abbr
  }

  /** A non-empty local part: the initials are its first one or two characters, upper-cased, all taken from before the first '@'. */
  lemma InitialsFromLocalPart(email: string)
    requires LocalPart(email) != []
    ensures var r := Initials(email);
      && |r| == (if |LocalPart(email)| < 2 then |LocalPart(email)| else 2)
      && forall i :: 0 <= i < |r| ==> email[i] != '@' && r[i] == UpperChar(email[i])
  {
  }

  /** The fallback "U" is used exactly when there is nothing before the first '@'. */
  lemma FallbackIffEmptyLocalPart(email: string)
    ensures Abbreviation(email) == [] <==> LocalPart(email) == []
  {
  }

  /** The avatar reads "U" when the local part is empty, and also when it is a lone "u" or "U". */
  lemma {:induction false} InitialsAreUIff(email: string)
    ensures Initials(email) == "U" <==> LocalPart(email) in {"", "u", "U"}
  {
    var lp := LocalPart(email);
    var abbr := Abbreviation(email);
    if lp != [] {
      assert |abbr| >= 1;
      if abbr == "U" {
        assert |Slice(lp, 2)| == 1 && |lp| == 1;
        assert abbr[0] == UpperChar(Slice(lp, 2)[0]) == UpperChar(lp[0]) == 'U';
        assert lp[0] == 'u' || lp[0] == 'U';
        assert lp == [lp[0]];
      }
      if lp == "u" || lp == "U" {
        assert Slice(lp, 2) == lp;
        assert abbr == [UpperChar(lp[0])];
      }
    }
  }

  /** Worked examples: the local part's first two characters, upper-cased. */
  lemma InitialsExamples()
    ensures Initials("a@x.com") == "A"
    ensures Initials("tester@example.com") == "TE"
  {
    assert "a@x.com" == "a" + ['@'] + "x.com";
    TakeUntilStopsAtSeparator("a", '@', "x.com");
    assert ToUpper(Slice("a", 2)) == "A";
    assert "tester@example.com" == "tester" + ['@'] + "example.com";
    TakeUntilStopsAtSeparator("tester", '@', "example.com");
    assert Slice("tester", 2) == "te";
    assert ToUpper("te") == "TE" by {
      assert ToUpper("e") == "E";
    }
  }

  /** Worked examples of the fallback: nothing before the '@', or no text at all. */
  lemma FallbackExamples()
    ensures Initials("@x.com") == "U"
    ensures Initials("") == "U"
  {
  }
}
