/** The address check of the registration form: an anchored `re.match` of
      [a-zA-Z0-9_.+-]+ @ [a-zA-Z0-9-]+ \. [a-zA-Z0-9-.]+ $
    written out by hand. */
module Email {

  predicate IsAsciiAlnum(c: char) {
    'a' <= c <= 'z' || 'A' <= c <= 'Z' || '0' <= c <= '9'
  }

  /** [a-zA-Z0-9_.+-]: the local part. */
  predicate IsLocalChar(c: char) {
    IsAsciiAlnum(c) || c == '_' || c == '.' || c == '+' || c == '-'
  }

  /** [a-zA-Z0-9-]: the first domain label (no dot). */
  predicate IsLabelChar(c: char) {
    IsAsciiAlnum(c) || c == '-'
  }

  /** [a-zA-Z0-9-.]: the rest of the domain. The `-` after the range 0-9 is a
      literal hyphen, not a range. */
  predicate IsTailChar(c: char) {
    IsAsciiAlnum(c) || c == '-' || c == '.'
  }

  datatype CharClass = Local | Label | Tail

  predicate InClass(c: char, k: CharClass) {
    match k
    case Local => IsLocalChar(c)
    case Label => IsLabelChar(c)
    case Tail => IsTailChar(c)
  }

  /** A greedy run of class `k` starting at `from`: the index just past it. */
  function Span(s: string, from: nat, k: CharClass): (r: nat)
    requires from <= |s|
    ensures from <= r <= |s|
    ensures forall i :: from <= i < r ==> InClass(s[i], k)
    ensures r == |s| || !InClass(s[r], k)
    decreases |s| - from
  {
    if from == |s| || !InClass(s[from], k) then from else Span(s, from + 1, k)
  }

  /** Python's `$` (no MULTILINE flag): the end of the string, or the position
      just before a newline that ends the string. */
  predicate AtEnd(s: string, p: nat) {
    p == |s| || (p + 1 == |s| && s[p] == '\n')
  }

  /** `is_valid_email(email)` is truthy. Every `+` is matched greedily: giving
      characters back never helps, because what follows each run (`@`, `.`,
      the end) lies outside that run's class. */
  predicate IsValidEmail(s: string)
    ensures IsValidEmail(s) ==> 5 <= |s| && s[0] != '@'
  {
    var at := Span(s, 0, Local);
    0 < at < |s| && s[at] == '@' &&
    var dot := Span(s, at + 1, Label);
    at + 1 < dot < |s| && s[dot] == '.' &&
    var end := Span(s, dot + 1, Tail);
    dot + 1 < end && AtEnd(s, end)
  }

  /** What the pattern means: s[..at] is a non-empty local part, s[at] the `@`,
      s[at+1..dot] a non-empty dot-free label, s[dot] the `.`, s[dot+1..end] a
      non-empty tail, and `end` satisfies `$`. */
  ghost predicate Split(s: string, at: nat, dot: nat, end: nat) {
    && 0 < at && at + 1 < dot && dot + 1 < end <= |s|
    && s[at] == '@' && s[dot] == '.' && AtEnd(s, end)
    && (forall i :: 0 <= i < at ==> IsLocalChar(s[i]))
    && (forall i :: at < i < dot ==> IsLabelChar(s[i]))
    && (forall i :: dot < i < end ==> IsTailChar(s[i]))
  }

  /** A maximal run is found by Span, whatever the recursion did to get there. */
  lemma SpanIs(s: string, from: nat, k: CharClass, to: nat)
    requires from <= to <= |s|
    requires forall i :: from <= i < to ==> InClass(s[i], k)
    requires to == |s| || !InClass(s[to], k)
    ensures Span(s, from, k) == to
  {
  }

  /** The recognizer accepts exactly the strings the pattern describes. */
  lemma IsValidEmailIff(s: string)
    ensures IsValidEmail(s) <==> exists at: nat, dot: nat, end: nat :: Split(s, at, dot, end)
  {
    if IsValidEmail(s) {
      var at := Span(s, 0, Local);
      var dot := Span(s, at + 1, Label);
      var end := Span(s, dot + 1, Tail);
      assert Split(s, at, dot, end);
    }
    if exists at: nat, dot: nat, end: nat :: Split(s, at, dot, end) {
      var at: nat, dot: nat, end: nat :| Split(s, at, dot, end);
      SpanIs(s, 0, Local, at);
      SpanIs(s, at + 1, Label, dot);
      SpanIs(s, dot + 1, Tail, end);
    }
  }

  /** The pattern fixes the split: the single `@` and, after it, the first `.`. */
  lemma SplitUnique(s: string, at: nat, dot: nat, end: nat, at': nat, dot': nat, end': nat)
    requires Split(s, at, dot, end) && Split(s, at', dot', end')
    ensures at == at' && dot == dot' && end == end'
  {
    SpanIs(s, 0, Local, at);
    SpanIs(s, 0, Local, at');
    SpanIs(s, at + 1, Label, dot);
    SpanIs(s, at + 1, Label, dot');
    SpanIs(s, dot + 1, Tail, end);
    SpanIs(s, dot + 1, Tail, end');
  }

  /** s = L + "@" + D + "." + T is accepted, also with one trailing newline
      (the `$` quirk). */
  lemma AcceptsDecomposition(local: string, host: string, tail: string)
    requires |local| > 0 && forall c :: c in local ==> IsLocalChar(c)
    requires |host| > 0 && forall c :: c in host ==> IsLabelChar(c)
    requires |tail| > 0 && forall c :: c in tail ==> IsTailChar(c)
    ensures IsValidEmail(local + "@" + host + "." + tail)
    ensures IsValidEmail(local + "@" + host + "." + tail + "\n")
  {
    var s := local + "@" + host + "." + tail;
    var at, dot := |local|, |local| + 1 + |host|;
    forall i | 0 <= i < at ensures IsLocalChar(s[i]) {
      assert s[i] == local[i];
    }
    forall i | at < i < dot ensures IsLabelChar(s[i]) {
      assert s[i] == host[i - at - 1];
    }
    forall i | dot < i < |s| ensures IsTailChar(s[i]) {
      assert s[i] == tail[i - dot - 1];
    }
    assert Split(s, at, dot, |s|);
    IsValidEmailIff(s);
    var s' := s + "\n";
    assert Split(s', at, dot, |s|);
    IsValidEmailIff(s');
  }

  function AtSigns(s: string): set<nat> {
    set i: nat | i < |s| && s[i] == '@'
  }

  /** An accepted address holds exactly one `@`: none of the three classes
      admits it. */
  lemma ExactlyOneAt(s: string)
    requires IsValidEmail(s)
    ensures |AtSigns(s)| == 1
  {
    IsValidEmailIff(s);
    var at: nat, dot: nat, end: nat :| Split(s, at, dot, end);
    forall i | i in AtSigns(s) ensures i == at {
      assert s[i] == '@';
    }
    assert AtSigns(s) == {at};
  }

  /** Every character of an accepted address is an ASCII letter, a digit or
      one of `_ . + - @`, except a newline in the very last position. */
  lemma OnlyAddressCharacters(s: string)
    requires IsValidEmail(s)
    ensures forall i :: 0 <= i < |s| ==>
              IsLocalChar(s[i]) || s[i] == '@' || (i + 1 == |s| && s[i] == '\n')
  {
    IsValidEmailIff(s);
    var at: nat, dot: nat, end: nat :| Split(s, at, dot, end);
    forall i | 0 <= i < |s|
      ensures IsLocalChar(s[i]) || s[i] == '@' || (i + 1 == |s| && s[i] == '\n')
    {
      if at < i < dot {
        assert IsLabelChar(s[i]);
      } else if dot < i < end {
        assert IsTailChar(s[i]);
      }
    }
  }

  /** A space, tab, carriage return, a newline other than the final one, or
      any character beyond ASCII makes the address invalid. */
  lemma RejectsWhitespaceAndNonAscii(s: string, i: nat)
    requires i < |s|
    requires s[i] == ' ' || s[i] == '\t' || s[i] == '\r' || s[i] as int >= 128
             || (s[i] == '\n' && i + 1 < |s|)
    ensures !IsValidEmail(s)
  {
    if IsValidEmail(s) {
      OnlyAddressCharacters(s);
      assert false;
    }
  }

  /** Splitting `local + "@" + domain` puts the `@` right after `local`, so
      the domain starts with a label character and holds a dot. */
  lemma SplitOfJoined(local: string, domain: string, at: nat, dot: nat, end: nat)
    requires Split(local + "@" + domain, at, dot, end)
    ensures at == |local|
    ensures |domain| > 0 && domain[0] != '.' && '.' in domain
  {
    var s := local + "@" + domain;
    assert s[|local|] == '@' && !IsLocalChar('@') && !IsLabelChar('@') && !IsTailChar('@');
    assert s[at + 1] == domain[0] && IsLabelChar(s[at + 1]);
    assert s[dot] == domain[dot - at - 1];
  }

  /** Whatever precedes the `@`, a first label that is missing or a domain
      without any dot is rejected. */
  lemma RejectsMissingLabelOrDot(local: string, domain: string)
    requires (|domain| > 0 && domain[0] == '.') || forall c :: c in domain ==> c != '.'
    ensures !IsValidEmail(local + "@" + domain)
  {
    if IsValidEmail(local + "@" + domain) {
      IsValidEmailIff(local + "@" + domain);
      var at: nat, dot: nat, end: nat :| Split(local + "@" + domain, at, dot, end);
      SplitOfJoined(local, domain, at, dot, end);
      assert false;
    }
  }
}

/** Concrete strings run through the address check. */
module EmailExamples {
  import opened Email

  /** Addresses the pattern accepts, the trailing newline included. */
  lemma AcceptedExamples()
    ensures IsValidEmail("a@b.c")
    ensures IsValidEmail("a@b.c\n")
  {
    AcceptsDecomposition("a", "b", "c");
    assert "a@b.c" == "a" + "@" + "b" + "." + "c";
    assert "a@b.c\n" == "a" + "@" + "b" + "." + "c" + "\n";
  }

  /** Dots and `+` in the local part, hyphens in both domain parts, more dots
      in the tail. */
  lemma AcceptsPunctuation()
    ensures IsValidEmail("a.b+c@d-e.f-g.h")
  {
    AcceptsDecomposition("a.b+c", "d-e", "f-g.h");
    assert "a.b+c@d-e.f-g.h" == "a.b+c" + "@" + "d-e" + "." + "f-g.h";
  }

  /** Strings the pattern rejects: empty, no dot, empty first label, two
      newlines, a space. */
  lemma RejectedExamples()
    ensures !IsValidEmail("")
    ensures !IsValidEmail("a@b")
    ensures !IsValidEmail("a@.com")
    ensures !IsValidEmail("a@b.c\n\n")
    ensures !IsValidEmail("a b@c.de")
  {
    RejectsMissingLabelOrDot("a", "b");
    assert "a@b" == "a" + "@" + "b";
    RejectsMissingLabelOrDot("a", ".com");
    assert "a@.com" == "a" + "@" + ".com";
    RejectsWhitespaceAndNonAscii("a@b.c\n\n", 5);
    RejectsWhitespaceAndNonAscii("a b@c.de", 1);
  }
}
