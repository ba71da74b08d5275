/** `isValidEmail`: the pattern `^[^\s@]+@[^\s@]+\.[^\s@]+$`, run as the finite automaton a
    regular-expression engine builds for it, and the language that pattern describes. */
module Email {
  import opened Js

  /** The character class `[^\s@]`. Note that it admits `.`. */
  predicate Allowed(c: char) {
    !IsWhitespace(c) && c != '@'
  }

  predicate AllAllowed(s: string) {
    forall i :: 0 <= i < |s| ==> Allowed(s[i])
  }

  /** Automaton states, named after the part of the pattern read so far. */
  datatype State =
    | Start      // nothing read
    | Local      // `[^\s@]+`
    | AtSign     // `[^\s@]+@`
    | Domain     // `[^\s@]+@[^\s@]+`, no dot yet that may serve as the `\.`
    | Dot        // ... `\.` just read
    | Tld        // ... `\.[^\s@]+`: the whole pattern matched
    | Reject

  function Step(q: State, c: char): State {
    match q
    case Start => if Allowed(c) then Local else Reject
    case Local => if Allowed(c) then Local else if c == '@' then AtSign else Reject
    case AtSign => if Allowed(c) then Domain else Reject
    case Domain => if c == '.' then Dot else if Allowed(c) then Domain else Reject
    case Dot => if Allowed(c) then Tld else Reject
    case Tld => if Allowed(c) then Tld else Reject
    case Reject => Reject
  }

  function Run(q: State, s: string): State
    decreases |s|
  {
    if s == [] then q else Run(Step(q, s[0]), s[1..])
  }

  /** `isValidEmail`: the anchored pattern accepts the whole of `email`. */
  predicate IsValidEmail(email: string) {
    Run(Start, email) == Tld
  }

  // ---------------------------------------------------------------------------------
  // The language of the pattern, stated without the automaton.

  /** `d` splits as `b + "." + c` at index `k`, with `|b| >= lo` and `c` non-empty. */
  ghost predicate DotAt(d: string, k: int, lo: nat) {
    lo <= k < |d| - 1 && d[k] == '.'
  }

  /** `[^\s@]+\.[^\s@]+` matches the whole of `d`. */
  ghost predicate IsDomain(d: string) {
    AllAllowed(d) && exists k :: DotAt(d, k, 1)
  }

  /** `s` splits as `a + "@" + d` at index `i`, with `a` a run of at least `lo` characters of
      `[^\s@]` and `d` a domain. */
  ghost predicate AtSplit(s: string, i: int, lo: nat) {
    lo <= i < |s| && s[i] == '@' && AllAllowed(s[..i]) && IsDomain(s[i + 1..])
  }

  /** `s` is `a + "@" + b + "." + c` with `a`, `b`, `c` non-empty runs of `[^\s@]`. */
  ghost predicate IsEmailParts(s: string, a: string, b: string, c: string) {
    && s == a + "@" + b + "." + c
    && a != [] && b != [] && c != []
    && AllAllowed(a) && AllAllowed(b) && AllAllowed(c)
  }

  // ---------------------------------------------------------------------------------
  // What each state of the automaton still accepts.

  lemma {:induction false} RunReject(s: string)
    ensures Run(Reject, s) == Reject
  {
    if s != [] {
      RunReject(s[1..]);
    }
  }

  lemma {:induction false} RunTld(s: string)
    ensures Run(Tld, s) == Tld <==> AllAllowed(s)
  {
    if s != [] {
      if Allowed(s[0]) {
        RunTld(s[1..]);
        assert AllAllowed(s) <==> AllAllowed(s[1..]) by {
          assert forall i :: 1 <= i < |s| ==> s[i] == s[1..][i - 1];
        }
      } else {
        RunReject(s[1..]);
      }
    }
  }

  /** In state `Domain` one domain character has been read, so any dot of `s` that is
      not its last character may serve as the separator. */
  lemma {:induction false} RunDomain(s: string)
    ensures Run(Domain, s) == Tld <==> AllAllowed(s) && exists k :: DotAt(s, k, 0)
  {
    if s != [] {
      var h, t := s[0], s[1..];
      assert AllAllowed(s) <==> Allowed(h) && AllAllowed(t) by {
        assert forall i :: 1 <= i < |s| ==> s[i] == t[i - 1];
      }
      if !Allowed(h) {
        RunReject(t);
      } else if h == '.' {
        RunTld(t);
        if t != [] {
          assert DotAt(s, 0, 0);
        }
      } else {
        RunDomain(t);
        if exists k :: DotAt(s, k, 0) {
          var k :| DotAt(s, k, 0);
          assert DotAt(t, k - 1, 0);
        }
        if exists k :: DotAt(t, k, 0) {
          var k :| DotAt(t, k, 0);
          assert DotAt(s, k + 1, 0);
        }
      }
    }
  }

  lemma RunAtSign(d: string)
    ensures Run(AtSign, d) == Tld <==> IsDomain(d)
  {
    if d != [] {
      var h, t := d[0], d[1..];
      assert AllAllowed(d) <==> Allowed(h) && AllAllowed(t) by {
        assert forall i :: 1 <= i < |d| ==> d[i] == t[i - 1];
      }
      if Allowed(h) {
        RunDomain(t);
        if exists k :: DotAt(d, k, 1) {
          var k :| DotAt(d, k, 1);
          assert DotAt(t, k - 1, 0);
        }
        if exists k :: DotAt(t, k, 0) {
          var k :| DotAt(t, k, 0);
          assert DotAt(d, k + 1, 1);
        }
      } else {
        RunReject(t);
      }
    }
  }

  lemma {:induction false} RunLocal(s: string)
    ensures Run(Local, s) == Tld <==> exists i :: AtSplit(s, i, 0)
  {
    if s != [] {
      var h, t := s[0], s[1..];
      if h == '@' {
        RunAtSign(t);
        assert s[..0] == [] && s[1..] == t;
        if IsDomain(t) {
          assert AtSplit(s, 0, 0);
        }
        forall i | AtSplit(s, i, 0) ensures IsDomain(t) {
          if i > 0 {
            assert s[..i][0] == '@';
          }
        }
      } else if Allowed(h) {
        RunLocal(t);
        forall i | 0 <= i < |t| ensures AtSplit(s, i + 1, 0) <==> AtSplit(t, i, 0) {
          assert s[i + 2..] == t[i + 1..];
          assert s[..i + 1] == [h] + t[..i];
          assert AllAllowed(s[..i + 1]) <==> AllAllowed(t[..i]) by {
            assert forall j :: 0 <= j < i ==> t[..i][j] == s[..i + 1][j + 1];
          }
        }
        if exists i :: AtSplit(s, i, 0) {
          var i :| AtSplit(s, i, 0);
          assert AtSplit(t, i - 1, 0);
        }
        if exists i :: AtSplit(t, i, 0) {
          var i :| AtSplit(t, i, 0);
          assert AtSplit(s, i + 1, 0);
        }
      } else {
        RunReject(t);
        forall i | 0 < i <= |s| ensures s[..i][0] == h && !AllAllowed(s[..i]) {
        }
      }
    }
  }

  // ---------------------------------------------------------------------------------
  // The automaton accepts exactly the language of the pattern.

  lemma IsValidEmailSplit(s: string)
    ensures IsValidEmail(s) <==> exists i :: AtSplit(s, i, 1)
  {
    if s != [] {
      var h, t := s[0], s[1..];
      if Allowed(h) {
        RunLocal(t);
        forall i | 0 <= i < |t| ensures AtSplit(s, i + 1, 1) <==> AtSplit(t, i, 0) {
          assert s[i + 2..] == t[i + 1..];
          assert AllAllowed(s[..i + 1]) <==> AllAllowed(t[..i]) by {
            assert forall j :: 0 <= j < i ==> t[..i][j] == s[..i + 1][j + 1];
          }
        }
        if exists i :: AtSplit(s, i, 1) {
          var i :| AtSplit(s, i, 1);
          assert AtSplit(t, i - 1, 0);
        }
      } else {
        RunReject(t);
        forall i | 0 < i <= |s| ensures s[..i][0] == h && !AllAllowed(s[..i]) {
        }
      }
    }
  }

  lemma AllAllowedSlice(s: string, lo: int, hi: int)
    requires AllAllowed(s) && 0 <= lo <= hi <= |s|
    ensures AllAllowed(s[lo..hi])
  {
    assert forall j :: 0 <= j < hi - lo ==> s[lo..hi][j] == s[lo + j];
  }

  /** An accepted address splits into its three non-empty parts. */
  lemma ValidEmailHasParts(s: string)
    requires IsValidEmail(s)
    ensures exists a, b, c :: IsEmailParts(s, a, b, c)
  {
    IsValidEmailSplit(s);
    var i :| AtSplit(s, i, 1);
    var d := s[i + 1..];
    var k :| DotAt(d, k, 1);
    var a, b, c := s[..i], d[..k], d[k + 1..];
    assert s == a + "@" + d;
    assert d == b + "." + c;
    AllAllowedSlice(d, 0, k);
    AllAllowedSlice(d, k + 1, |d|);
    assert d[0..k] == b && d[k + 1..|d|] == c;
    assert IsEmailParts(s, a, b, c);
  }

  /** Any such three parts, joined by `@` and `.`, are accepted. */
  lemma PartsAreValidEmail(s: string, a: string, b: string, c: string)
    requires IsEmailParts(s, a, b, c)
    ensures IsValidEmail(s)
  {
    var i, d := |a|, b + "." + c;
    assert s == a + ("@" + d);
    assert s[..i] == a && s[i] == '@' && s[i + 1..] == d;
    assert AllAllowed(d) by {
      assert forall j :: 0 <= j < |d| ==> d[j] == (if j < |b| then b[j] else if j == |b| then '.' else c[j - |b| - 1]);
    }
    assert DotAt(d, |b|, 1);
    assert AtSplit(s, i, 1);
    IsValidEmailSplit(s);
  }

  /** `isValidEmail(s)` holds exactly when `s` is `a + "@" + b + "." + c` with `a`, `b` and `c`
      non-empty and free of whitespace and `@` (`b` and `c` may contain further dots). */
  lemma IsValidEmailIff(s: string)
    ensures IsValidEmail(s) <==> exists a, b, c :: IsEmailParts(s, a, b, c)
  {
    if IsValidEmail(s) {
      ValidEmailHasParts(s);
    }
    if exists a, b, c :: IsEmailParts(s, a, b, c) {
      var a, b, c :| IsEmailParts(s, a, b, c);
      PartsAreValidEmail(s, a, b, c);
    }
  }

  lemma NoAtInAllowed(s: string)
    requires AllAllowed(s)
    ensures multiset(s)['@'] == 0
  {
    assert '@' !in s;
  }

  /** What every valid address has: no whitespace anywhere, exactly one `@`, at least one
      character before it, and after it a dot with at least one character on each side. So a
      string with whitespace, with no `@`, with two or more, or without such a dot is refused. */
  lemma ValidEmailNecessary(s: string)
    requires IsValidEmail(s)
    ensures forall j :: 0 <= j < |s| ==> !IsWhitespace(s[j])
    ensures multiset(s)['@'] == 1
    ensures exists i, k :: 0 < i && i + 1 < k < |s| - 1 && s[i] == '@' && s[k] == '.'
  {
    IsValidEmailIff(s);
    var a, b, c :| IsEmailParts(s, a, b, c);
    NoAtInAllowed(a);
    NoAtInAllowed(b);
    NoAtInAllowed(c);
    assert multiset(s) == multiset(a) + multiset("@") + multiset(b) + multiset(".") + multiset(c);
    forall j | 0 <= j < |s| ensures !IsWhitespace(s[j]) {
      if j < |a| {
        assert s[j] == a[j];
      } else if j == |a| {
        assert s[j] == '@';
      } else if j < |a| + 1 + |b| {
        assert s[j] == b[j - |a| - 1];
      } else if j == |a| + 1 + |b| {
        assert s[j] == '.';
      } else {
        assert s[j] == c[j - |a| - |b| - 2];
      }
    }
    assert s[|a|] == '@' && s[|a| + 1 + |b|] == '.';
  }

  /** Sample inputs the pattern accepts: a dotted domain, and a second dot right after the
      separator, which `[^\s@]` admits. */
  lemma AcceptedExamples()
    ensures IsValidEmail("ab@cd.ef")
    ensures IsValidEmail("a@b..")
  {
    var s := "ab@cd.ef";
    assert Run(Start, s) == Run(Local, s[1..]);
    assert Run(Local, s[1..]) == Run(Local, s[2..]);
    assert Run(Local, s[2..]) == Run(AtSign, s[3..]);
    assert Run(AtSign, s[3..]) == Run(Domain, s[4..]);
    assert Run(Domain, s[4..]) == Run(Domain, s[5..]);
    assert Run(Domain, s[5..]) == Run(Dot, s[6..]);
    assert Run(Dot, s[6..]) == Run(Tld, s[7..]);
    assert Run(Tld, s[7..]) == Run(Tld, s[8..]);
    assert s[8..] == [];
    var u := "a@b..";
    assert Run(Start, u) == Run(Local, u[1..]);
    assert Run(Local, u[1..]) == Run(AtSign, u[2..]);
    assert Run(AtSign, u[2..]) == Run(Domain, u[3..]);
    assert Run(Domain, u[3..]) == Run(Dot, u[4..]);
    assert Run(Dot, u[4..]) == Run(Tld, u[5..]);
    assert u[5..] == [];
  }

  /** Sample inputs the pattern refuses: embedded whitespace, and a second `@`. */
  lemma RefusedExamples()
    ensures !IsValidEmail("a b@c.d")
    ensures !IsValidEmail("a@b@c.d")
  {
    var s := "a b@c.d";
    assert Run(Start, s) == Run(Local, s[1..]);
    assert Run(Local, s[1..]) == Run(Reject, s[2..]);
    RunReject(s[2..]);
    var u := "a@b@c.d";
    assert Run(Start, u) == Run(Local, u[1..]);
    assert Run(Local, u[1..]) == Run(AtSign, u[2..]);
    assert Run(AtSign, u[2..]) == Run(Domain, u[3..]);
    assert Run(Domain, u[3..]) == Run(Reject, u[4..]);
    RunReject(u[4..]);
  }
}
