/**
 * Alias resolution (`processAliases`). Rules are scanned in order for each
 * original recipient; the first rule whose pattern matches decides, and its
 * reject pattern, when it also matches, suppresses the recipient outright.
 * Regular-expression matching is opaque: callers supply `matches`.
 */
module Aliases {
  import opened Wrappers
  import opened Seqs

  /** One entry of `config.aliases`: `pattern`, optional `rejectPattern`, `recipients`. */
  datatype AliasRule<P> = AliasRule(pattern: P, rejectPattern: Option<P>, recipients: seq<string>)

  /** How the rule scan ended for one recipient. */
  datatype Choice = NoMatch | Rejected(rule: nat) | Accepted(rule: nat)

  /** The pair `processAliases` returns: deduplicated recipients and `origRecipient`. */
  datatype Resolution = Resolution(recipients: seq<string>, origRecipient: Option<string>)

  /** The rule scan started at rule `i`. */
  function SelectFrom<P>(addr: string, rules: seq<AliasRule<P>>, matches: (P, string) -> bool, i: nat): (c: Choice)
    requires i <= |rules|
    ensures c.Rejected? || c.Accepted? ==> i <= c.rule < |rules|
    decreases |rules| - i
  {
    if i == |rules| then NoMatch
    else if matches(rules[i].pattern, addr) then
      if rules[i].rejectPattern.Some? && matches(rules[i].rejectPattern.value, addr) then Rejected(i)
      else Accepted(i)
    else SelectFrom(addr, rules, matches, i + 1)
  }

  /** The rule scan for one recipient. */
  function Select<P>(addr: string, rules: seq<AliasRule<P>>, matches: (P, string) -> bool): (r: Choice) {
    SelectFrom(addr, rules, matches, 0)
  }

  predicate RejectMatches<P>(rule: AliasRule<P>, addr: string, matches: (P, string) -> bool) {
    rule.rejectPattern.Some? && matches(rule.rejectPattern.value, addr)
  }

  /** Rule `k` is the first, from `i` on, whose pattern matches `addr`. */
  predicate FirstMatchFrom<P>(addr: string, rules: seq<AliasRule<P>>, matches: (P, string) -> bool, i: nat, k: nat) {
    i <= k < |rules| && matches(rules[k].pattern, addr)
    && forall j :: i <= j < k ==> !matches(rules[j].pattern, addr)
  }

  /**
   * First match and reject override: the scan accepts rule `k` exactly when `k`
   * is the first matching rule and its reject pattern does not match; it rejects
   * exactly when the first matching rule's reject pattern matches (later rules
   * are never consulted); and it finds nothing exactly when no pattern matches.
   */
  lemma {:induction false} SelectFromSpec<P>(addr: string, rules: seq<AliasRule<P>>, matches: (P, string) -> bool, i: nat)
    requires i <= |rules|
    ensures forall k: nat :: SelectFrom(addr, rules, matches, i) == Accepted(k) <==>
      FirstMatchFrom(addr, rules, matches, i, k) && !RejectMatches(rules[k], addr, matches)
    ensures forall k: nat :: SelectFrom(addr, rules, matches, i) == Rejected(k) <==>
      FirstMatchFrom(addr, rules, matches, i, k) && RejectMatches(rules[k], addr, matches)
    ensures SelectFrom(addr, rules, matches, i) == NoMatch <==>
      forall j :: i <= j < |rules| ==> !matches(rules[j].pattern, addr)
    decreases |rules| - i
  {
    if i < |rules| && !matches(rules[i].pattern, addr) {
      SelectFromSpec(addr, rules, matches, i + 1);
      forall k ensures FirstMatchFrom(addr, rules, matches, i, k) <==> FirstMatchFrom(addr, rules, matches, i + 1, k) {
      }
    }
  }

  /** `SelectFromSpec` for a full scan. */
  lemma SelectSpec<P>(addr: string, rules: seq<AliasRule<P>>, matches: (P, string) -> bool)
    ensures forall k: nat :: Select(addr, rules, matches) == Accepted(k) <==>
      FirstMatchFrom(addr, rules, matches, 0, k) && !RejectMatches(rules[k], addr, matches)
    ensures forall k: nat :: Select(addr, rules, matches) == Rejected(k) <==>
      FirstMatchFrom(addr, rules, matches, 0, k) && RejectMatches(rules[k], addr, matches)
    ensures Select(addr, rules, matches) == NoMatch <==>
      forall j :: 0 <= j < |rules| ==> !matches(rules[j].pattern, addr)
  {
    SelectFromSpec(addr, rules, matches, 0);
  }

  /** What the `map` callback returns for one recipient: the chosen rule's list, or `null`. */
  function Contribution<P>(addr: string, rules: seq<AliasRule<P>>, matches: (P, string) -> bool): (r: Option<seq<string>>) {
    match Select(addr, rules, matches)
    case Accepted(k) => Some(rules[k].recipients)
    case _ => None
  }

  /** `origRecipients.map(callback)`. */
  function Contributions<P>(rs: seq<string>, rules: seq<AliasRule<P>>, matches: (P, string) -> bool): (r: seq<Option<seq<string>>>)
  {
    seq(|rs|, i requires 0 <= i < |rs| => Contribution(rs[i], rules, matches))
  }

  /** `filter(x => x)`: the non-null entries, in order (an empty list is kept). */
  function Present(cs: seq<Option<seq<string>>>): (r: seq<seq<string>>)
    ensures forall l :: l in r <==> Some(l) in cs
  {
    if cs == [] then []
    else (if cs[0].Some? then [cs[0].value] else []) + Present(cs[1..])
  }

  /** `origRecipient = origRecipient || recipient`: a missing or empty sender is replaced. */
  function KeepSender(current: Option<string>, addr: string): (r: Option<string>) {
    if current.Some? && current.value != "" then current else Some(addr)
  }

  /** The value of `origRecipient` after the callback has run on all of `rs`. */
  function SenderOf<P>(rs: seq<string>, rules: seq<AliasRule<P>>, matches: (P, string) -> bool): (r: Option<string>)
    decreases |rs|
  {
    if rs == [] then None
    else
      var prev := SenderOf(rs[..|rs| - 1], rules, matches);
      if Select(rs[|rs| - 1], rules, matches).Accepted? then KeepSender(prev, rs[|rs| - 1]) else prev
  }

  /** What `processAliases` returns, as a function of its input and the alias table. */
  function Resolve<P>(rs: seq<string>, rules: seq<AliasRule<P>>, matches: (P, string) -> bool): (r: Resolution) {
    Resolution(Uniq(Flatten(Present(Contributions(rs, rules, matches)))), SenderOf(rs, rules, matches))
  }

  /** Recipient `rs[i]` is accepted by a rule. */
  predicate AcceptedAt<P>(rs: seq<string>, rules: seq<AliasRule<P>>, matches: (P, string) -> bool, i: nat) {
    i < |rs| && Select(rs[i], rules, matches).Accepted?
  }

  /** The scan of the `for` loop inside the `map` callback, with its early returns. */
  method MatchRecipient<P>(recipient: string, aliases: seq<AliasRule<P>>, matches: (P, string) -> bool) returns (c: Choice)
    ensures c == Select(recipient, aliases, matches)
  {
    var i := 0;
    while i < |aliases|
      invariant 0 <= i <= |aliases|
      invariant SelectFrom(recipient, aliases, matches, i) == Select(recipient, aliases, matches)
    {
      var alias := aliases[i];
      if matches(alias.pattern, recipient) {
        if alias.rejectPattern.Some? && matches(alias.rejectPattern.value, recipient) {
          return Rejected(i);
        }
        return Accepted(i);
      }
      i := i + 1;
    }
    return NoMatch;
  }

  /**
   * `processAliases`: maps every original recipient to its chosen rule's list
   * (or `null`) while recording the first accepted recipient, then drops the
   * nulls, flattens and deduplicates.
   */
  method ProcessAliases<P>(origRecipients: seq<string>, aliases: seq<AliasRule<P>>, matches: (P, string) -> bool)
    returns (recipients: seq<string>, origRecipient: Option<string>)
    ensures Resolution(recipients, origRecipient) == Resolve(origRecipients, aliases, matches)
  {
    origRecipient := None;
    var mapped: seq<Option<seq<string>>> := [];
    var n := 0;
    while n < |origRecipients|
      invariant 0 <= n <= |origRecipients|
      invariant mapped == Contributions(origRecipients[..n], aliases, matches)
      invariant origRecipient == SenderOf(origRecipients[..n], aliases, matches)
    {
      var recipient := origRecipients[n];
      var choice := MatchRecipient(recipient, aliases, matches);
      assert origRecipients[..n + 1][..n] == origRecipients[..n];
      if choice.Accepted? {
        origRecipient := KeepSender(origRecipient, recipient);
        mapped := mapped + [Some(aliases[choice.rule].recipients)];
      } else {
        mapped := mapped + [None];
      }
      n := n + 1;
    }
    assert origRecipients[..n] == origRecipients;
    recipients := Uniq(Flatten(Present(mapped)));
  }

  /**
   * The resolved recipients are without duplicates, and an address is among
   * them exactly when some original recipient is accepted by a rule that lists it.
   */
  lemma ResolveRecipients<P>(rs: seq<string>, rules: seq<AliasRule<P>>, matches: (P, string) -> bool)
    ensures NoDups(Resolve(rs, rules, matches).recipients)
    ensures forall x :: x in Resolve(rs, rules, matches).recipients <==>
      exists i: nat :: AcceptedAt(rs, rules, matches, i) && x in rules[Select(rs[i], rules, matches).rule].recipients
  {
    var cs := Contributions(rs, rules, matches);
    forall x ensures x in Resolve(rs, rules, matches).recipients <==>
      exists i: nat :: AcceptedAt(rs, rules, matches, i) && x in rules[Select(rs[i], rules, matches).rule].recipients
    {
      if x in Resolve(rs, rules, matches).recipients {
        var ls := Present(cs);
        var j :| 0 <= j < |ls| && x in ls[j];
        assert Some(ls[j]) in cs;
        var i :| 0 <= i < |cs| && cs[i] == Some(ls[j]);
        assert AcceptedAt(rs, rules, matches, i);
      }
      if exists i: nat :: AcceptedAt(rs, rules, matches, i) && x in rules[Select(rs[i], rules, matches).rule].recipients {
        var i: nat :| AcceptedAt(rs, rules, matches, i) && x in rules[Select(rs[i], rules, matches).rule].recipients;
        assert cs[i] == Some(rules[Select(rs[i], rules, matches).rule].recipients);
        var ls := Present(cs);
        assert cs[i].value in ls;
      }
    }
  }

  /** Recipients in first-seen order: as they occur in the chosen rules' lists, taken in input order. */
  lemma ResolveOrder<P>(rs: seq<string>, rules: seq<AliasRule<P>>, matches: (P, string) -> bool)
    ensures var all := Flatten(Present(Contributions(rs, rules, matches)));
      var r := Resolve(rs, rules, matches).recipients;
      forall i, j :: 0 <= i < j < |r| ==> r[i] in all && r[j] in all && IndexOf(all, r[i]) < IndexOf(all, r[j])
  {
  }

  /**
   * `origRecipient` is absent exactly when no recipient is accepted. When it is
   * a non-empty address, it is the first accepted recipient that is not the
   * empty string (the empty string is falsy and gets overwritten).
   */
  lemma {:induction false} SenderOfSpec<P>(rs: seq<string>, rules: seq<AliasRule<P>>, matches: (P, string) -> bool)
    ensures SenderOf(rs, rules, matches).None? <==> forall i :: 0 <= i < |rs| ==> !AcceptedAt(rs, rules, matches, i)
    ensures SenderOf(rs, rules, matches).Some? ==> SenderOf(rs, rules, matches).value in rs
    ensures SenderOf(rs, rules, matches).Some? && SenderOf(rs, rules, matches).value != "" ==>
      exists i: nat :: AcceptedAt(rs, rules, matches, i) && rs[i] == SenderOf(rs, rules, matches).value
        && forall j :: 0 <= j < i && AcceptedAt(rs, rules, matches, j) ==> rs[j] == ""
    decreases |rs|
  {
    if rs != [] {
      var n := |rs| - 1;
      var init := rs[..n];
      SenderOfSpec(init, rules, matches);
      assert forall i :: 0 <= i < n ==> (AcceptedAt(init, rules, matches, i) <==> AcceptedAt(rs, rules, matches, i));
      var s := SenderOf(rs, rules, matches);
      var prev := SenderOf(init, rules, matches);
      if AcceptedAt(rs, rules, matches, n) {
        assert s == KeepSender(prev, rs[n]);
        if prev.Some? && prev.value != "" {
          assert s == prev;
          var i: nat :| AcceptedAt(init, rules, matches, i) && init[i] == prev.value
            && forall j :: 0 <= j < i && AcceptedAt(init, rules, matches, j) ==> init[j] == "";
          assert AcceptedAt(rs, rules, matches, i);
        } else {
          assert s == Some(rs[n]);
          forall j | 0 <= j < n && AcceptedAt(rs, rules, matches, j) ensures rs[j] == "" {
            assert AcceptedAt(init, rules, matches, j);
            SenderEmptyPrefix(init, rules, matches, j);
          }
        }
      } else {
        assert s == prev;
        if s.Some? && s.value != "" {
          var i: nat :| AcceptedAt(init, rules, matches, i) && init[i] == prev.value
            && forall j :: 0 <= j < i && AcceptedAt(init, rules, matches, j) ==> init[j] == "";
          assert AcceptedAt(rs, rules, matches, i);
        }
      }
    }
  }

  /** While `origRecipient` is missing or empty, every accepted recipient so far was the empty string. */
  lemma {:induction false} SenderEmptyPrefix<P>(rs: seq<string>, rules: seq<AliasRule<P>>, matches: (P, string) -> bool, j: nat)
    requires AcceptedAt(rs, rules, matches, j)
    requires SenderOf(rs, rules, matches).None? || SenderOf(rs, rules, matches).value == ""
    ensures rs[j] == ""
    decreases |rs|
  {
    var init := rs[..|rs| - 1];
    var prev := SenderOf(init, rules, matches);
    if j == |rs| - 1 {
      assert SenderOf(rs, rules, matches) == KeepSender(prev, rs[j]);
    } else {
      assert AcceptedAt(init, rules, matches, j);
      if Select(rs[|rs| - 1], rules, matches).Accepted? {
        assert SenderOf(rs, rules, matches) == KeepSender(prev, rs[|rs| - 1]);
      }
      SenderEmptyPrefix(init, rules, matches, j);
    }
  }

  /** With no empty address among the recipients, `origRecipient` is the first accepted one. */
  lemma SenderIsFirstAccepted<P>(rs: seq<string>, rules: seq<AliasRule<P>>, matches: (P, string) -> bool, i: nat)
    requires forall j :: 0 <= j < |rs| ==> rs[j] != ""
    requires AcceptedAt(rs, rules, matches, i)
    requires forall j :: 0 <= j < i ==> !AcceptedAt(rs, rules, matches, j)
    ensures SenderOf(rs, rules, matches) == Some(rs[i])
  {
    SenderOfSpec(rs, rules, matches);
    var s := SenderOf(rs, rules, matches);
    assert s.Some?;
    assert s.value in rs;
    var k: nat :| AcceptedAt(rs, rules, matches, k) && rs[k] == s.value
      && forall j :: 0 <= j < k && AcceptedAt(rs, rules, matches, j) ==> rs[j] == "";
    if k != i {
      assert i < k;
    }
  }

  /**
   * Non-empty recipients imply a sender. The converse holds when every rule
   * lists at least one address: then there is a sender exactly when there are
   * recipients.
   */
  lemma RecipientsNeedSender<P>(rs: seq<string>, rules: seq<AliasRule<P>>, matches: (P, string) -> bool)
    ensures Resolve(rs, rules, matches).recipients != [] ==> Resolve(rs, rules, matches).origRecipient.Some?
    ensures (forall k :: 0 <= k < |rules| ==> rules[k].recipients != []) ==>
      (Resolve(rs, rules, matches).recipients == [] <==> Resolve(rs, rules, matches).origRecipient.None?)
  {
    ResolveRecipients(rs, rules, matches);
    SenderOfSpec(rs, rules, matches);
    var r := Resolve(rs, rules, matches).recipients;
    if r != [] {
      assert r[0] in r;
    }
    if (forall k :: 0 <= k < |rules| ==> rules[k].recipients != []) && Resolve(rs, rules, matches).origRecipient.Some? {
      var i :| 0 <= i < |rs| && AcceptedAt(rs, rules, matches, i);
      var k := Select(rs[i], rules, matches).rule;
      SelectSpec(rs[i], rules, matches);
      var x := rules[k].recipients[0];
      assert x in rules[k].recipients;
      assert x in r;
    }
  }

  /** A single recipient resolves to its chosen rule's list, deduplicated, and becomes the sender; otherwise to nothing. */
  lemma ResolveOne<P>(addr: string, rules: seq<AliasRule<P>>, matches: (P, string) -> bool)
    ensures Resolve([addr], rules, matches) ==
      match Select(addr, rules, matches)
      case Accepted(k) => Resolution(Uniq(rules[k].recipients), Some(addr))
      case _ => Resolution([], None)
  {
    assert [addr][..0] == [];
    var cs := Contributions([addr], rules, matches);
    assert cs == [Contribution(addr, rules, matches)];
    assert cs[1..] == [];
    match Select(addr, rules, matches)
    case Accepted(k) =>
      var l := rules[k].recipients;
      assert Present(cs) == [l] + Present(cs[1..]);
      assert Present(cs) == [l];
      assert [l][1..] == [];
      assert Flatten([l]) == l + Flatten<string>([]);
      assert Flatten([l]) == l;
      assert SenderOf([addr], rules, matches) == KeepSender(None, addr);
    case _ =>
      assert Present(cs) == [];
      assert Uniq(Flatten<string>([])) == [];
      assert SenderOf([addr], rules, matches) == None;
  }

  /**
   * Two recipients both accepted: their lists are concatenated and
   * deduplicated, and the first becomes the sender unless it is empty.
   */
  lemma ResolveTwo<P>(a: string, b: string, rules: seq<AliasRule<P>>, matches: (P, string) -> bool, ka: nat, kb: nat)
    requires Select(a, rules, matches) == Accepted(ka) && Select(b, rules, matches) == Accepted(kb)
    ensures ka < |rules| && kb < |rules|
    ensures Resolve([a, b], rules, matches) ==
      Resolution(Uniq(rules[ka].recipients + rules[kb].recipients), if a != "" then Some(a) else Some(b))
  {
    var rs := [a, b];
    assert rs[..1] == [a] && rs[..1][..0] == [];
    var cs := Contributions(rs, rules, matches);
    assert cs == [Some(rules[ka].recipients), Some(rules[kb].recipients)];
    assert cs[1..] == [Some(rules[kb].recipients)] && cs[1..][1..] == [];
    assert Present(cs[1..]) == [rules[kb].recipients] + Present(cs[1..][1..]);
    assert Present(cs) == [rules[ka].recipients] + Present(cs[1..]);
    assert Present(cs) == [rules[ka].recipients, rules[kb].recipients];
    assert SenderOf(rs[..1], rules, matches) == Some(a);
    assert SenderOf(rs, rules, matches) == KeepSender(Some(a), b);
    assert Flatten(Present(cs)) == rules[ka].recipients + rules[kb].recipients;
    var ls := [rules[ka].recipients, rules[kb].recipients];
    assert ls[1..] == [rules[kb].recipients] && ls[1..][1..] == [];
    assert Flatten(ls) == rules[ka].recipients + (rules[kb].recipients + Flatten<string>([]));
  }

  /**
   * A rule with an empty list still makes its recipient the sender, even though
   * it contributes no address: such a recipient alone resolves to no recipients
   * and yet a sender.
   */
  lemma EmptyRuleSetsSender<P>(addr: string, rules: seq<AliasRule<P>>, matches: (P, string) -> bool)
    requires Select(addr, rules, matches).Accepted?
    requires rules[Select(addr, rules, matches).rule].recipients == []
    ensures Resolve([addr], rules, matches) == Resolution([], Some(addr))
  {
    assert [addr][..0] == [];
    assert SenderOf([addr], rules, matches) == Some(addr);
    var cs := Contributions([addr], rules, matches);
    assert cs == [Some([])];
    assert cs[1..] == [];
    assert Present(cs[1..]) == [];
    assert Present(cs) == [[]];
    var flat := Flatten(Present(cs));
    assert flat == [] + Flatten<string>([]);
    assert Uniq(flat) == [];
  }
}
