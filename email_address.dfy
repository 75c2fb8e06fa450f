/**
 * `isValidEmail`: the test of the address against `^[^\s@]+@[^\s@]+\.[^\s@]+$`.
 * The regular expression is modelled as the recognising automaton that
 * reads the address one character at a time, and proved to accept exactly
 * the addresses the plain description `WellFormed` admits.
 */
module EmailAddress {
  import opened Text

  /** A character of the class `[^\s@]`. */
  predicate IsAtom(c: char)
  {
    !IsSpace(c) && c != '@'
  }

  ghost predicate AllAtoms(s: string)
  {
    forall k :: 0 <= k < |s| ==> IsAtom(s[k])
  }

  /**
   * The plain description of a valid address: no white space; exactly one
   * `@`, not the first character; and after the `@` a `.` with at least one
   * character between the `@` and it and at least one character after it.
   */
  ghost predicate WellFormed(s: string)
  {
    && (forall k :: 0 <= k < |s| ==> !IsSpace(s[k]))
    && exists a :: 0 < a < |s| && s[a] == '@' && OnlyAt(s, a) && DotAfter(s, a + 2)
  }

  /** The only `@` of `s` is at position `a`. */
  ghost predicate OnlyAt(s: string, a: nat)
  {
    forall k :: 0 <= k < |s| && k != a ==> s[k] != '@'
  }

  /** `s` has a `.` at some position `d >= from` that is not its last character. */
  ghost predicate DotAfter(s: string, from: nat)
  {
    exists d :: from <= d < |s| - 1 && s[d] == '.'
  }

  /**
   * Where the automaton stands in the pattern: before the first character
   * (`Start`), inside the part before `@` (`User`), right after `@`
   * (`AfterAt`), inside `[^\s@]+` before a usable `.` (`Host`), right after
   * such a `.` (`AfterDot`), and inside the final `[^\s@]+` (`Tld`).
   */
  datatype Phase = Start | User | AfterAt | Host | AfterDot | Tld

  /** Whether the automaton in phase `p` accepts the rest `s` of the address. */
  function Accepts(p: Phase, s: string): bool
    decreases |s|
  {
    if s == [] then p == Tld
    else
      var c, rest := s[0], s[1..];
      if c == '@' then p == User && Accepts(AfterAt, rest)
      else if IsSpace(c) then false
      else
        match p
        case Start => Accepts(User, rest)
        case User => Accepts(User, rest)
        case AfterAt => Accepts(Host, rest)
        case Host => Accepts(if c == '.' then AfterDot else Host, rest)
        case AfterDot => Accepts(Tld, rest)
        case Tld => Accepts(Tld, rest)
  }

  /** `emailRegex.test(email)`. */
  function IsValidEmail(email: string): (r: bool)
    ensures r <==> WellFormed(email)
  {
    AcceptsStart(email);
    Accepts(Start, email)
  }

  lemma {:induction false} AcceptsTld(s: string)
    ensures Accepts(Tld, s) <==> AllAtoms(s)
  {
    if s != [] {
      AcceptsTld(s[1..]);
      assert AllAtoms(s) <==> IsAtom(s[0]) && AllAtoms(s[1..]) by {
        if IsAtom(s[0]) && AllAtoms(s[1..]) {
          forall k | 0 <= k < |s| ensures IsAtom(s[k]) {
            if k > 0 { assert s[k] == s[1..][k - 1]; }
          }
        }
      }
    }
  }

  lemma AcceptsAfterDot(s: string)
    ensures Accepts(AfterDot, s) <==> s != [] && AllAtoms(s)
  {
    if s != [] {
      AcceptsTld(s[1..]);
      AcceptsTld(s);
      assert Accepts(Tld, s) <==> IsAtom(s[0]) && Accepts(Tld, s[1..]);
    }
  }

  /** Shifting the witness of `DotAfter` by the first character. */
  lemma DotAfterTail(s: string, from: nat)
    requires s != []
    ensures DotAfter(s, from + 1) <==> DotAfter(s[1..], from)
  {
    if DotAfter(s, from + 1) {
      var d :| from + 1 <= d < |s| - 1 && s[d] == '.';
      assert s[1..][d - 1] == '.';
    }
    if DotAfter(s[1..], from) {
      var d :| from <= d < |s[1..]| - 1 && s[1..][d] == '.';
      assert s[d + 1] == '.';
    }
  }

  /** Once one or more host characters are read: atoms only, and a `.` that is not last. */
  lemma {:induction false} AcceptsHost(s: string)
    ensures Accepts(Host, s) <==> AllAtoms(s) && DotAfter(s, 0)
  {
    if s != [] {
      AcceptsTld(s);
      AcceptsTld(s[1..]);
      assert AllAtoms(s) <==> IsAtom(s[0]) && AllAtoms(s[1..]) by {
        assert Accepts(Tld, s) <==> IsAtom(s[0]) && Accepts(Tld, s[1..]);
      }
      if s[0] == '.' {
        AcceptsAfterDot(s[1..]);
        if |s| >= 2 { assert s[0] == '.' && 0 < |s| - 1; }
      } else {
        AcceptsHost(s[1..]);
        DotAfterTail(s, 0);
        assert DotAfter(s, 0) <==> DotAfter(s, 1) by {
          if DotAfter(s, 0) {
            var d :| 0 <= d < |s| - 1 && s[d] == '.';
            assert d >= 1;
          }
        }
      }
    }
  }

  lemma AcceptsAfterAt(s: string)
    ensures Accepts(AfterAt, s) <==> AllAtoms(s) && DotAfter(s, 1)
  {
    if s != [] {
      AcceptsTld(s);
      AcceptsTld(s[1..]);
      assert Accepts(Tld, s) <==> IsAtom(s[0]) && Accepts(Tld, s[1..]);
      AcceptsHost(s[1..]);
      DotAfterTail(s, 0);
    }
  }

  /** The rest `s` splits at an `@` at `a` into atoms before it and a valid host after it. */
  ghost predicate SplitAt(s: string, a: int)
  {
    0 <= a < |s| && s[a] == '@' && AllAtoms(s[..a]) && AllAtoms(s[a + 1..]) && DotAfter(s[a + 1..], 1)
  }

  lemma SplitAtTail(s: string, a: int)
    requires s != [] && IsAtom(s[0]) && 1 <= a
    ensures SplitAt(s, a) <==> SplitAt(s[1..], a - 1)
  {
    if a < |s| {
      assert s[1..][..a - 1] == s[1..a];
      assert s[1..][a..] == s[a + 1..];
      assert AllAtoms(s[..a]) <==> AllAtoms(s[1..a]) by {
        if AllAtoms(s[1..a]) {
          forall k | 0 <= k < a ensures IsAtom(s[..a][k]) {
            if k > 0 { assert s[..a][k] == s[1..a][k - 1]; }
          }
        }
        if AllAtoms(s[..a]) {
          forall k | 0 <= k < a - 1 ensures IsAtom(s[1..a][k]) {
            assert s[1..a][k] == s[..a][k + 1];
          }
        }
      }
    }
  }

  lemma {:induction false} AcceptsUser(s: string)
    ensures Accepts(User, s) <==> exists a :: SplitAt(s, a)
  {
    if s != [] {
      if s[0] == '@' {
        AcceptsAfterAt(s[1..]);
        assert s[..0] == [];
        if Accepts(AfterAt, s[1..]) {
          assert SplitAt(s, 0);
        }
      } else if !IsSpace(s[0]) {
        AcceptsUser(s[1..]);
        if exists a :: SplitAt(s, a) {
          var a :| SplitAt(s, a);
          SplitAtTail(s, a);
        }
        if exists a :: SplitAt(s[1..], a) {
          var a :| SplitAt(s[1..], a);
          SplitAtTail(s, a + 1);
        }
      }
    }
  }

  lemma AcceptsStart(s: string)
    ensures Accepts(Start, s) <==> WellFormed(s)
  {
    if s != [] && IsAtom(s[0]) {
      AcceptsUser(s[1..]);
      if exists a :: SplitAt(s[1..], a) {
        var a :| SplitAt(s[1..], a);
        SplitAtTail(s, a + 1);
        SplitIsWellFormed(s, a + 1);
      }
      if WellFormed(s) {
        var a :| 0 < a < |s| && s[a] == '@' && OnlyAt(s, a) && DotAfter(s, a + 2);
        SplitIsWellFormed(s, a);
        SplitAtTail(s, a);
      }
    }
  }

  /** The slice form of a split and the plain description agree. */
  lemma SplitIsWellFormed(s: string, a: int)
    requires 0 < a < |s|
    ensures SplitAt(s, a) <==>
      (forall k :: 0 <= k < |s| ==> !IsSpace(s[k])) && s[a] == '@' && OnlyAt(s, a) && DotAfter(s, a + 2)
  {
    var host := s[a + 1..];
    assert DotAfter(host, 1) <==> DotAfter(s, a + 2) by {
      if DotAfter(host, 1) {
        var d :| 1 <= d < |host| - 1 && host[d] == '.';
        assert s[a + 1 + d] == '.';
      }
      if DotAfter(s, a + 2) {
        var d :| a + 2 <= d < |s| - 1 && s[d] == '.';
        assert host[d - a - 1] == '.';
      }
    }
    if s[a] == '@' && AllAtoms(s[..a]) && AllAtoms(host) {
      forall k | 0 <= k < |s| ensures !IsSpace(s[k]) && (k != a ==> s[k] != '@') {
        if k < a { assert s[k] == s[..a][k]; }
        else if k > a { assert s[k] == host[k - a - 1]; }
      }
    }
    if (forall k :: 0 <= k < |s| ==> !IsSpace(s[k])) && s[a] == '@' && OnlyAt(s, a) {
      forall k | 0 <= k < a ensures IsAtom(s[..a][k]) {
        assert s[..a][k] == s[k];
      }
      forall k | 0 <= k < |host| ensures IsAtom(host[k]) {
        assert host[k] == s[a + 1 + k];
      }
    }
  }

  /** Concrete cases of the pattern. */
  lemma Examples()
    ensures IsValidEmail("a@b.c")
    ensures IsValidEmail("a@b..c")
    ensures !IsValidEmail("@b.c")
    ensures !IsValidEmail("a@.c")
    ensures !IsValidEmail("a@b.")
    ensures !IsValidEmail("a@b@c.d")
    ensures !IsValidEmail("a b@c.d")
  {
    assert Accepts(Start, "a@b.c");
    assert Accepts(Start, "a@b..c");
    assert !Accepts(Start, "a@.c");
    assert !Accepts(Start, "a@b.");
    assert !Accepts(Start, "a@b@c.d");
  }
}
