/**
 * The alias table of the example configuration, with its three regexes
 * written out as the string tests they perform, and what it resolves some
 * recipients to.
 */
module ExampleConfig {
  import opened Wrappers
  import opened Text
  import opened Aliases

  /** The shapes of the example's case-insensitive regexes. */
  datatype Pattern =
    | EndsIn(suffix: string)                 // /<suffix>$/i
    | StartsWithEither(a: string, b: string)  // /^(<a>|<b>)/i
    | Exactly(text: string)                   // /^<text>$/i

  /** What `recipient.match(pattern)` decides for these patterns. */
  predicate Matches(p: Pattern, addr: string) {
    match p
    case EndsIn(suffix) => EndsWithCI(addr, suffix)
    case StartsWithEither(a, b) => StartsWithCI(addr, a) || StartsWithCI(addr, b)
    case Exactly(text) => EqualsCI(addr, text)
  }

  const You := "you@yourteam.awsapps.com"
  const Buddy := "buddy@yourteam.awsapps.com"

  /** `config.aliases` of the example configuration. */
  const Config: seq<AliasRule<Pattern>> := [
    AliasRule(EndsIn("@yourdomain.com"), Some(StartsWithEither("spamaddress@", "otherspam@")), [You]),
    AliasRule(Exactly("buddy@yourotherdomain.org"), None, [Buddy]),
    AliasRule(Exactly("wholeteam@yourotherdomain.org"), None, [You, Buddy])
  ]

  /**
   * An address ending in `@yourdomain.com` (in any case) is forwarded to you
   * with itself as the sender, unless it is one of the two spam addresses,
   * which resolve to nobody and set no sender.
   */
  lemma DomainAddress(addr: string)
    requires EndsWithCI(addr, "@yourdomain.com")
    ensures Resolve([addr], Config, Matches) ==
      if StartsWithCI(addr, "spamaddress@") || StartsWithCI(addr, "otherspam@") then Resolution([], None)
      else Resolution([You], Some(addr))
  {
    assert Matches(Config[0].pattern, addr);
    ResolveOne(addr, Config, Matches);
    if !(StartsWithCI(addr, "spamaddress@") || StartsWithCI(addr, "otherspam@")) {
      assert Select(addr, Config, Matches) == Accepted(0);
      assert Seqs.Uniq([You]) == [You] by {
        assert [You][..0] == [];
      }
    }
  }

  /** The team alias and the buddy alias together yield each team member once. */
  lemma TeamAndBuddyDeduplicated(team: string, buddy: string)
    requires EqualsCI(team, "wholeteam@yourotherdomain.org") && EqualsCI(buddy, "buddy@yourotherdomain.org")
    ensures Resolve([team, buddy], Config, Matches) == Resolution([You, Buddy], Some(team))
  {
    TeamSelected(team);
    BuddySelected(buddy);
    ResolveTwo(team, buddy, Config, Matches, 2, 1);
    TeamRecipients();
  }

  /** The team's list followed by the buddy's holds each of the two once after `_.uniq`. */
  lemma TeamRecipients()
    ensures Seqs.Uniq(Config[2].recipients + Config[1].recipients) == [You, Buddy]
  {
    assert Config[2].recipients + Config[1].recipients == [You, Buddy, Buddy];
    UniqRepeatLast(You, Buddy);
  }

  lemma TeamSelected(team: string)
    requires EqualsCI(team, "wholeteam@yourotherdomain.org")
    ensures Select(team, Config, Matches) == Accepted(2) && team != ""
  {
    EqualsCIAt(team, "wholeteam@yourotherdomain.org", 28);
    NotEndsWithCI(team, "@yourdomain.com", 14);
    assert !Matches(Config[0].pattern, team);
    assert !Matches(Config[1].pattern, team);
    assert Matches(Config[2].pattern, team);
    assert SelectFrom(team, Config, Matches, 2) == Accepted(2);
    assert SelectFrom(team, Config, Matches, 1) == Accepted(2);
  }

  lemma BuddySelected(buddy: string)
    requires EqualsCI(buddy, "buddy@yourotherdomain.org")
    ensures Select(buddy, Config, Matches) == Accepted(1)
  {
    EqualsCIAt(buddy, "buddy@yourotherdomain.org", 24);
    NotEndsWithCI(buddy, "@yourdomain.com", 14);
    assert !Matches(Config[0].pattern, buddy);
    assert Matches(Config[1].pattern, buddy);
    assert SelectFrom(buddy, Config, Matches, 1) == Accepted(1);
  }

  lemma UniqRepeatLast(a: string, b: string)
    requires a != b
    ensures Seqs.Uniq([a, b, b]) == [a, b]
  {
    assert [a][..0] == [];
    assert Seqs.Uniq([a]) == [a];
    assert [a, b][..1] == [a];
    assert Seqs.Uniq([a, b]) == [a, b];
    assert [a, b, b][..2] == [a, b];
    assert b in [a, b];
  }
}
