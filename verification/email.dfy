/**
 The contact form's e-mail test, the regular expression
   /^[\w-\.]+@([\w-]+\.)+[\w-]{2,4}$/
 read without the `u` flag, so that `[\w-\.]` is word characters, hyphen and
 dot, `\w` is `[A-Za-z0-9_]`, and `^`/`$` anchor at the ends of the input.

 Two definitions are given and proved equal: `RegexMatches`, which follows the
 structure of the pattern (a local part, an `@`, one or more `label.` groups,
 a final label), and `ValidEmail`, which reads the address by splitting it at
 `@` and then at `.`.
 */
module Email {
  import opened Strings

  /** `\w`. */
  predicate IsWordChar(c: char) {
    ('A' <= c <= 'Z') || ('a' <= c <= 'z') || ('0' <= c <= '9') || c == '_'
  }

  /** `[\w-]`: a character of a domain label. */
  predicate IsLabelChar(c: char) {
    IsWordChar(c) || c == '-'
  }

  /** `[\w-\.]`: a character of the local part. */
  predicate IsLocalChar(c: char) {
    IsLabelChar(c) || c == '.'
  }

  /** `[\w-\.]+` */
  predicate LocalPart(s: string) {
    |s| >= 1 && forall i :: 0 <= i < |s| ==> IsLocalChar(s[i])
  }

  /** `[\w-]+` */
  predicate Label(s: string) {
    |s| >= 1 && forall i :: 0 <= i < |s| ==> IsLabelChar(s[i])
  }

  /** `[\w-]{2,4}` */
  predicate TopLabel(s: string) {
    2 <= |s| <= 4 && forall i :: 0 <= i < |s| ==> IsLabelChar(s[i])
  }

  /** `([\w-]+\.)+[\w-]{2,4}` matches all of `d`: a first `label.` group,
      followed either by the final label or by more groups. */
  ghost predicate DomainMatches(d: string)
    decreases |d|
  {
    exists j :: 0 <= j < |d| && d[j] == '.' && Label(d[..j]) &&
      (TopLabel(d[j + 1..]) || DomainMatches(d[j + 1..]))
  }

  /** The whole pattern, anchored at both ends, matches `s`. */
  ghost predicate RegexMatches(s: string) {
    exists i :: 0 <= i < |s| && s[i] == '@' && LocalPart(s[..i]) && DomainMatches(s[i + 1..])
  }

  /** A domain read as its dot-separated labels: at least two, none empty,
      all made of `[\w-]`, the last one 2 to 4 characters long. */
  predicate ValidDomain(d: string) {
    ValidLabels(Split(d, '.'))
  }

  predicate ValidLabels(labels: seq<string>) {
    && |labels| >= 2
    && (forall k :: 0 <= k < |labels| - 1 ==> Label(labels[k]))
    && TopLabel(labels[|labels| - 1])
  }

  /** `emailRegex.test(s)`, read as: exactly one `@`, a local part before it
      and a valid domain after it. */
  predicate ValidEmail(s: string) {
    ValidParts(Split(s, '@'))
  }

  predicate ValidParts(parts: seq<string>) {
    |parts| == 2 && LocalPart(parts[0]) && ValidDomain(parts[1])
  }

  /** Label lists are read from the front: a first label, then either the
      final label alone or another valid list. */
  lemma ValidLabelsCons(head: string, tail: seq<string>)
    requires |tail| >= 1
    ensures ValidLabels([head] + tail) <==>
      Label(head) && ((|tail| == 1 && TopLabel(tail[0])) || ValidLabels(tail))
  {
    var labels := [head] + tail;
    assert labels[0] == head;
    assert forall k :: 0 <= k < |tail| ==> labels[k + 1] == tail[k];
    assert labels[|labels| - 1] == tail[|tail| - 1];
  }

  /** The segment-based reading of a domain agrees with the pattern. */
  lemma {:induction false} ValidDomainMatches(d: string)
    ensures ValidDomain(d) <==> DomainMatches(d)
    decreases |d|
  {
    if '.' !in d {
      assert !ValidDomain(d) && !DomainMatches(d);
    } else {
      var j := FirstIndex(d, '.');
      var rest := d[j + 1..];
      ValidDomainMatches(rest);
      if ValidDomain(d) {
        ValidDomainFirstGroup(d);
        assert 0 <= j < |d| && d[j] == '.' && Label(d[..j]) && (TopLabel(rest) || DomainMatches(rest));
      }
      if DomainMatches(d) {
        DomainMatchesFirstGroup(d);
        GroupValidDomain(d);
      }
    }
  }

  /** A valid domain starts with a `label.` group ending at its first dot,
      followed by the final label or by another valid domain. */
  lemma ValidDomainFirstGroup(d: string)
    requires ValidDomain(d)
    ensures '.' in d
    ensures var j := FirstIndex(d, '.');
      Label(d[..j]) && (TopLabel(d[j + 1..]) || ValidDomain(d[j + 1..]))
  {
    if '.' !in d {
      SplitNone(d, '.');
      assert false;
    }
    var j := FirstIndex(d, '.');
    var head, rest := d[..j], d[j + 1..];
    var tail := Split(rest, '.');
    assert Split(d, '.') == [head] + tail by {
      SplitFirst(d, '.');
    }
    ValidLabelsCons(head, tail);
    assert TopLabel(rest) || ValidDomain(rest) by {
      if |tail| == 1 {
        assert '.' !in rest;
        SplitNone(rest, '.');
      }
    }
  }

  /** Conversely, such a group followed by the final label or by a valid
      domain is a valid domain. */
  lemma GroupValidDomain(d: string)
    requires '.' in d
    requires var j := FirstIndex(d, '.');
      Label(d[..j]) && (TopLabel(d[j + 1..]) || ValidDomain(d[j + 1..]))
    ensures ValidDomain(d)
  {
    var j := FirstIndex(d, '.');
    var rest := d[j + 1..];
    var tail := Split(rest, '.');
    SplitFirst(d, '.');
    ValidLabelsCons(d[..j], tail);
    if TopLabel(rest) {
      assert '.' !in rest by {
        assert forall i :: 0 <= i < |rest| ==> IsLabelChar(rest[i]);
      }
      SplitNone(rest, '.');
    }
  }

  /** In a matching domain the first group ends at the first dot. */
  lemma DomainMatchesFirstGroup(d: string)
    requires DomainMatches(d)
    ensures '.' in d
    ensures var j := FirstIndex(d, '.');
      Label(d[..j]) && (TopLabel(d[j + 1..]) || DomainMatches(d[j + 1..]))
  {
    var j :| 0 <= j < |d| && d[j] == '.' && Label(d[..j]) &&
      (TopLabel(d[j + 1..]) || DomainMatches(d[j + 1..]));
    assert '.' !in d[..j] by {
      assert forall i :: 0 <= i < j ==> IsLabelChar(d[..j][i]);
    }
    FirstIndexUnique(d, '.', j);
  }

  /** A matching domain is made of label characters and dots only. */
  lemma {:induction false} DomainMatchesChars(d: string)
    requires DomainMatches(d)
    ensures forall i :: 0 <= i < |d| ==> IsLocalChar(d[i])
    decreases |d|
  {
    var j :| 0 <= j < |d| && d[j] == '.' && Label(d[..j]) &&
      (TopLabel(d[j + 1..]) || DomainMatches(d[j + 1..]));
    var head := d[..j];
    var rest := d[j + 1..];
    if !TopLabel(rest) {
      DomainMatchesChars(rest);
    }
    assert forall i :: 0 <= i < |rest| ==> IsLocalChar(rest[i]);
    forall i | 0 <= i < |d| ensures IsLocalChar(d[i]) {
      if i < j {
        assert d[i] == head[i];
      } else if i > j {
        assert d[i] == rest[i - j - 1];
      }
    }
  }

  /** An accepted address splits at its first `@` into a local part and a
      valid domain. */
  lemma ValidEmailParts(s: string)
    requires ValidEmail(s)
    ensures '@' in s
    ensures var i := FirstIndex(s, '@');
      LocalPart(s[..i]) && ValidDomain(s[i + 1..])
  {
    var i := FirstIndex(s, '@');
    var rest := s[i + 1..];
    SplitFirst(s, '@');
    assert |Split(rest, '@')| == 1;
    SplitNone(rest, '@');
  }

  /** An address the split reading accepts matches the pattern. */
  lemma ValidEmailRegex(s: string)
    requires ValidEmail(s)
    ensures RegexMatches(s)
  {
    ValidEmailParts(s);
    var i := FirstIndex(s, '@');
    ValidDomainMatches(s[i + 1..]);
    RegexWitness(s, i);
  }

  /** An `@` with a local part before it and a matching domain after it is a
      match of the whole pattern. */
  lemma RegexWitness(s: string, i: nat)
    requires i < |s| && s[i] == '@' && LocalPart(s[..i]) && DomainMatches(s[i + 1..])
    ensures RegexMatches(s)
  {
  }

  /** An address the pattern matches is accepted by the split reading. */
  lemma RegexValidEmail(s: string)
    requires RegexMatches(s)
    ensures ValidEmail(s)
  {
    var i :| 0 <= i < |s| && s[i] == '@' && LocalPart(s[..i]) && DomainMatches(s[i + 1..]);
    var local, rest := s[..i], s[i + 1..];
    assert '@' !in local by {
      assert forall k :: 0 <= k < i ==> IsLocalChar(local[k]);
    }
    assert '@' !in rest by {
      DomainMatchesChars(rest);
      assert forall k :: 0 <= k < |rest| ==> IsLocalChar(rest[k]);
    }
    SplitOnce(s, '@', i);
    ValidDomainMatches(rest);
    assert ValidParts([local, rest]);
  }

  /** The segment-based reading of an address agrees with the pattern. */
  lemma ValidEmailMatches(s: string)
    ensures ValidEmail(s) <==> RegexMatches(s)
  {
    if ValidEmail(s) {
      ValidEmailRegex(s);
    }
    if RegexMatches(s) {
      RegexValidEmail(s);
    }
  }

  /** What any accepted domain looks like character by character: only label
      characters and dots, no empty label (it neither starts nor ends with a
      dot and has no two dots in a row), and a last dot followed by a final
      label of 2 to 4 characters from `[\w-]`. */
  predicate DomainShape(d: string) {
    && |d| > 0 && d[0] != '.' && d[|d| - 1] != '.'
    && (forall k :: 0 <= k < |d| ==> IsLocalChar(d[k]))
    && (forall k :: 0 <= k < |d| - 1 ==> NoDoubleDotAt(d, k))
    && exists t :: 0 <= t < |d| && d[t] == '.' && TopLabel(d[t + 1..])
  }

  /** Positions `k` and `k + 1` of `d` are not both dots. */
  predicate NoDoubleDotAt(d: string, k: int)
    requires 0 <= k < |d| - 1
  {
    !(d[k] == '.' && d[k + 1] == '.')
  }

  /** A `label.` group followed by a final label has the domain shape. */
  lemma GroupThenTopLabel(head: string, rest: string)
    requires Label(head) && TopLabel(rest)
    ensures DomainShape(head + ['.'] + rest)
  {
    var d := head + ['.'] + rest;
    var j := |head|;
    assert forall k :: 0 <= k < j ==> d[k] == head[k];
    assert forall k :: j < k < |d| ==> d[k] == rest[k - j - 1];
    assert d[j + 1..] == rest;
    assert d[j] == '.' && TopLabel(d[j + 1..]);
  }

  /** A `label.` group followed by a well-shaped domain has the domain shape. */
  lemma GroupThenDomain(head: string, rest: string)
    requires Label(head) && DomainShape(rest)
    ensures DomainShape(head + ['.'] + rest)
  {
    var d := head + ['.'] + rest;
    var j := |head|;
    assert forall k :: 0 <= k < j ==> d[k] == head[k];
    assert forall k :: j < k < |d| ==> d[k] == rest[k - j - 1];
    var t :| 0 <= t < |rest| && rest[t] == '.' && TopLabel(rest[t + 1..]);
    assert d[j + 1 + t + 1..] == rest[t + 1..];
    assert d[j + 1 + t] == '.';
    forall k | 0 <= k < |d| - 1 ensures NoDoubleDotAt(d, k) {
      if k > j {
        assert NoDoubleDotAt(rest, k - j - 1);
      }
    }
  }

  /** Whatever the domain group of the pattern matches has the domain shape:
      the character-level description of `([\w-]+\.)+[\w-]{2,4}`. */
  lemma {:induction false} DomainMatchesShape(d: string)
    requires DomainMatches(d)
    ensures DomainShape(d)
    decreases |d|
  {
    var j :| 0 <= j < |d| && d[j] == '.' && Label(d[..j]) &&
      (TopLabel(d[j + 1..]) || DomainMatches(d[j + 1..]));
    var head, rest := d[..j], d[j + 1..];
    Around(d, j);
    if TopLabel(rest) {
      GroupThenTopLabel(head, rest);
    } else {
      DomainMatchesShape(rest);
      GroupThenDomain(head, rest);
    }
  }

  /** What any accepted address looks like: exactly one `@`, with a local part
      of `[\w-\.]` before it and a well-shaped domain after it. */
  predicate AddressShaped(s: string) {
    && multiset(s)['@'] == 1
    && forall at :: 0 <= at < |s| && s[at] == '@' ==>
      LocalPart(s[..at]) && DomainShape(s[at + 1..])
  }

  /** A local part, one `@` and a well-shaped domain. */
  lemma AddressShape(s: string, local: string, domain: string)
    requires s == local + ['@'] + domain
    requires LocalPart(local) && DomainShape(domain)
    ensures AddressShaped(s)
  {
    var i := |local|;
    assert forall k :: 0 <= k < i ==> local[k] != '@';
    assert forall k :: 0 <= k < |domain| ==> domain[k] != '@';
    assert '@' !in local && '@' !in domain;
    OccursOnce(local, '@', domain);
    assert forall at :: 0 <= at < |s| && s[at] == '@' ==> at == i by {
      assert forall k :: 0 <= k < i ==> s[k] == local[k];
      assert forall k :: i < k < |s| ==> s[k] == domain[k - i - 1];
    }
    assert s[..i] == local && s[i + 1..] == domain;
  }

  /** Every address the pattern accepts is shaped that way. */
  lemma ValidEmailShape(s: string)
    requires ValidEmail(s)
    ensures AddressShaped(s)
  {
    ValidEmailParts(s);
    var i := FirstIndex(s, '@');
    var local, domain := s[..i], s[i + 1..];
    ValidDomainMatches(domain);
    DomainMatchesShape(domain);
    Around(s, i);
    AddressShape(s, local, domain);
  }

  /** "a@b.co" is accepted. */
  lemma AcceptsShortAddress()
    ensures ValidEmail("a@b.co")
  {
    var s := "a@b.co";
    var d := "b.co";
    assert s[2..] == d && s[..1] == "a" && s[1] == '@';
    assert d[..1] == "b" && d[2..] == "co" && d[1] == '.';
    assert Label("b") && TopLabel("co") && LocalPart("a");
    assert DomainMatches(d);
    assert RegexMatches(s);
    RegexValidEmail(s);
  }

  /** An address without `@` is rejected. */
  lemma RejectsMissingAt()
    ensures !ValidEmail("not-an-email")
  {
    var s := "not-an-email";
    assert forall k :: 0 <= k < |s| ==> s[k] != '@';
    assert Split(s, '@') == [s];
  }

  /** The pattern sees the untrimmed address: a leading space is rejected. */
  lemma RejectsLeadingSpace()
    ensures !ValidEmail(" a@b.co")
  {
    var s := " a@b.co";
    assert s[..2] == " a" && s[2] == '@' && '@' !in s[..2];
    FirstIndexUnique(s, '@', 2);
    assert Split(s, '@')[0] == " a";
    assert !LocalPart(" a");
  }

  /** A one-character final label is rejected. */
  lemma RejectsShortTopLabel()
    ensures !ValidEmail("a@b.c")
  {
    var s, d := "a@b.c", "b.c";
    assert s[..1] == "a" && s[2..] == d && d[..1] == "b" && d[2..] == "c";
    SplitOnce(s, '@', 1);
    SplitOnce(d, '.', 1);
    assert !TopLabel("c");
  }
}
