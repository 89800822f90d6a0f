/** The UPI ID format check `/^[\w.-]+@[\w.-]+$/.test(s)`, given twice: as the
    finite automaton a regular-expression engine runs for it, and as the
    declarative shape `L@H`; the two are proved to agree. */
module UpiPattern {
  import opened Wrappers

  /** The character class `[\w.-]`. Without the `u` and `i` flags `\w` is
      exactly `[A-Za-z0-9_]`. */
  predicate IsIdChar(c: char) {
    ('A' <= c <= 'Z') || ('a' <= c <= 'z') || ('0' <= c <= '9') || c == '_' || c == '.' || c == '-'
  }

  predicate AllIdChars(s: string) {
    forall i :: 0 <= i < |s| ==> IsIdChar(s[i])
  }

  /** `s` is `L@H` with the `@` at index `k` and `L`, `H` non-empty runs of
      `[\w.-]`. */
  predicate SplitsAt(s: string, k: int) {
    0 < k < |s| - 1 && s[k] == '@' && AllIdChars(s[..k]) && AllIdChars(s[k + 1..])
  }

  /** The declarative reading of the pattern. */
  predicate IsUpiId(s: string) {
    exists k | 0 < k < |s| - 1 :: SplitsAt(s, k)
  }

  /** The states of the automaton for `^[\w.-]+@[\w.-]+$`: nothing read yet,
      inside the part before `@`, just after `@`, inside the part after `@`. */
  datatype State = Start | Local | AfterAt | Handle

  function Step(q: State, c: char): Option<State> {
    match q
    case Start => if IsIdChar(c) then Some(Local) else None
    case Local => if IsIdChar(c) then Some(Local) else if c == '@' then Some(AfterAt) else None
    case AfterAt => if IsIdChar(c) then Some(Handle) else None
    case Handle => if IsIdChar(c) then Some(Handle) else None
  }

  /** Runs the automaton from `q` over all of `s`. `$` without the `m` flag
      matches only at the very end of the input, so the whole string must be
      consumed and the run must end in the accepting state. */
  function Run(q: State, s: string): bool
    decreases |s|
  {
    if s == [] then q == Handle
    else match Step(q, s[0])
      case None => false
      case Some(q') => Run(q', s[1..])
  }

  /** `/^[\w.-]+@[\w.-]+$/.test(s)`. */
  predicate Matches(s: string) {
    Run(Start, s)
  }

  lemma {:induction false} RunHandle(s: string)
    ensures Run(Handle, s) <==> AllIdChars(s)
    decreases |s|
  {
    if s != [] {
      RunHandle(s[1..]);
      if AllIdChars(s) {
        assert forall i :: 0 <= i < |s[1..]| ==> s[1..][i] == s[i + 1];
      }
      if IsIdChar(s[0]) && AllIdChars(s[1..]) {
        forall i | 0 < i < |s| ensures IsIdChar(s[i]) {
          assert s[i] == s[1..][i - 1];
        }
      }
    }
  }

  lemma RunAfterAt(s: string)
    ensures Run(AfterAt, s) <==> s != [] && AllIdChars(s)
  {
    if s != [] {
      RunHandle(s[1..]);
      if AllIdChars(s) {
        assert forall i :: 0 <= i < |s[1..]| ==> s[1..][i] == s[i + 1];
      }
      if IsIdChar(s[0]) && AllIdChars(s[1..]) {
        forall i | 0 < i < |s| ensures IsIdChar(s[i]) {
          assert s[i] == s[1..][i - 1];
        }
      }
    }
  }

  /** From inside the part before `@` the rest must be `L'@H` with `L'`
      possibly empty. */
  predicate RestSplitsAt(s: string, k: int) {
    0 <= k < |s| - 1 && s[k] == '@' && AllIdChars(s[..k]) && AllIdChars(s[k + 1..])
  }

  lemma {:induction false} RunLocal(s: string)
    ensures Run(Local, s) <==> exists k :: RestSplitsAt(s, k)
    decreases |s|
  {
    if s == [] {
      return;
    }
    if IsIdChar(s[0]) {
      RunLocal(s[1..]);
      if Run(Local, s) {
        var k :| RestSplitsAt(s[1..], k);
        assert s[1..][..k] == s[1..k + 1];
        assert s[1..][k + 1..] == s[k + 2..];
        assert RestSplitsAt(s, k + 1);
      }
      if k :| RestSplitsAt(s, k) {
        assert k > 0 by { assert s[k] == '@'; }
        assert s[1..][..k - 1] == s[1..k];
        assert s[1..][k..] == s[k + 1..];
        assert RestSplitsAt(s[1..], k - 1);
      }
    } else if s[0] == '@' {
      RunAfterAt(s[1..]);
      if Run(Local, s) {
        assert RestSplitsAt(s, 0);
      }
    }
  }

  /** The automaton accepts exactly the strings of the shape `L@H`. */
  lemma MatchesIffUpiId(s: string)
    ensures Matches(s) <==> IsUpiId(s)
  {
    if s != [] && IsIdChar(s[0]) {
      RunLocal(s[1..]);
      if Matches(s) {
        var k :| RestSplitsAt(s[1..], k);
        assert s[1..][..k] == s[1..k + 1];
        assert s[1..][k + 1..] == s[k + 2..];
        assert SplitsAt(s, k + 1);
      }
      if k :| SplitsAt(s, k) {
        assert s[1..][..k - 1] == s[1..k];
        assert s[1..][k..] == s[k + 1..];
        assert RestSplitsAt(s[1..], k - 1);
      }
    }
  }

  /** A well-formed UPI ID holds exactly one `@`, every other character is in
      `[\w.-]`, and in particular it starts and ends with a non-space. */
  lemma UpiIdShape(s: string, k: int)
    requires SplitsAt(s, k)
    ensures forall j :: 0 <= j < |s| && s[j] == '@' ==> j == k
    ensures forall j :: 0 <= j < |s| ==> IsIdChar(s[j]) || s[j] == '@'
  {
    forall j | 0 <= j < |s| && j != k ensures IsIdChar(s[j]) {
      if j < k {
        assert s[j] == s[..k][j];
      } else {
        assert s[j] == s[k + 1..][j - k - 1];
      }
    }
  }
}
