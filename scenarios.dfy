/**
 * End-to-end runs of the registry: one address, typed without a scheme, followed
 * through creation, a click, expiry and a second request for the same name.
 */
module Scenarios {
  import opened Wrappers
  import opened Text
  import opened Codes
  import opened Expiry
  import opened Links

  /** An address that is not blank and does not start with 'h' gets the https:// prefix. */
  predicate Bare(input: string) {
    |input| >= 4 && !IsWhitespace(input[0]) && input[0] != 'h'
  }

  lemma BareIsPrefixed(input: string)
    requires Bare(input)
    ensures !AllWhitespace(input)
    ensures WithScheme(input) == "https://" + input
  {
    assert input[..4][0] != 'h';
  }

  /**
   * Create a bare address with an empty custom name and the draws ("dog", 7): the link
   * is stored with the https:// prefix, code "dog7", no clicks and the creation time
   * as its id.
   */
  lemma CreateBare(input: string, parses: string -> bool)
    requires Bare(input) && parses("https://" + input)
    ensures Create([], input, "", 1, 7, 0, parses) == Success([Link(0, "https://" + input, "dog7", 0, 0)])
  {
    BareIsPrefixed(input);
    assert ChosenCode("", 1, 7) == "dog7" by {
      assert Decimal(7) == "7";
    }
    ExpiredCodeReusable([], input, "", 1, 7, 0, parses);
    var link := Link(0, WithScheme(input), ChosenCode("", 1, 7), 0, 0);
    assert link == Link(0, "https://" + input, "dog7", 0, 0);
    assert [link] + [] == [link];
  }

  /**
   * Following the created link a minute later adds one click. 31 minutes after
   * creation it has left the view and following it fails with NotFound.
   */
  lemma FollowThenExpire(long: string)
    ensures Redirect([Link(0, long, "dog7", 0, 0)], "dog7", MinuteMs)
         == Success([Link(0, long, "dog7", 1, 0)])
    ensures Active([Link(0, long, "dog7", 1, 0)], 31 * MinuteMs) == []
    ensures Redirect([Link(0, long, "dog7", 1, 0)], "dog7", 31 * MinuteMs) == Failure(NotFound)
  {
    var s0 := [Link(0, long, "dog7", 0, 0)];
    assert Resolve(s0, "dog7", MinuteMs) == Success(0);
    var s1 := [Link(0, long, "dog7", 1, 0)];
    assert Redirect(s0, "dog7", MinuteMs).value == s1 by {
      assert Redirect(s0, "dog7", MinuteMs).value[0] == s1[0];
    }
    assert s1[0] !in Active(s1, 31 * MinuteMs);
    assert Resolve(s1, "dog7", 31 * MinuteMs).Failure?;
  }

  /**
   * A second request for the custom name of an existing link: refused with CodeTaken
   * up to and including the 30-minute mark, granted one millisecond later.
   */
  lemma SameNameTwice(first: Link, input: string, custom: string, word: nat, num: nat, parses: string -> bool)
    requires word < |Words| && 1 <= num <= 99
    requires custom != [] && IsCodeText(custom) && first.code == custom
    requires Bare(input) && parses("https://" + input)
    ensures forall now :: first.createdAt <= now <= first.createdAt + ExpiryMs ==>
      Create([first], input, custom, word, num, now, parses) == Failure(CodeTaken)
    ensures var later := first.createdAt + ExpiryMs + 1;
      Create([first], input, custom, word, num, later, parses)
        == Success([Link(later, "https://" + input, custom, 0, later), first])
  {
    BareIsPrefixed(input);
    assert ChosenCode(custom, word, num) == custom;
    forall now | first.createdAt <= now <= first.createdAt + ExpiryMs
      ensures Create([first], input, custom, word, num, now, parses) == Failure(CodeTaken)
    {
      CreateOutcome([first], input, custom, word, num, now, parses);
      assert [first][0].code == custom && !IsExpired([first][0].createdAt, now);
    }
    var later := first.createdAt + ExpiryMs + 1;
    assert IsExpired([first][0].createdAt, later);
    ExpiredCodeReusable([first], input, custom, word, num, later, parses);
    var link := Link(later, WithScheme(input), ChosenCode(custom, word, num), 0, later);
    assert link == Link(later, "https://" + input, custom, 0, later);
    assert [link] + [first] == [link, first];
  }

  /** Removing an existing id empties the list of that link; removing a missing id changes nothing. */
  lemma RemoveExistingAndMissing(l: Link, other: int)
    requires other != l.id
    ensures Without([l], l.id) == []
    ensures Without([l], other) == [l]
  {
    assert l !in Without([l], l.id);
    WithoutAbsent([l], other);
  }
}
