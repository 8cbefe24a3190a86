/**
 * The two passes of `fix_project_references` run one after the other, so the
 * WSGI_APPLICATION pass reads the ROOT_URLCONF assignment the first pass wrote.
 * When an application value left open on its line runs into that assignment,
 * the second pass's match swallows its start, and no ROOT_URLCONF assignment is
 * left (SecondPassConsumesRouting). When no match of the second pass reaches
 * into the written assignment, it survives both passes
 * (FixKeepsRoutingAssignment).
 */
module PassOverlap {
  import opened Wrappers
  import opened Text
  import opened References
  import FixedPoint

  /** An application value whose closing quote is missing on its line ... */
  const WsgiOpen := "WSGI_APPLICATION = \"foo"
  /** ... followed on the same line by a routing assignment. */
  const Collided := WsgiOpen + Assignment(RootKey, "old")

  /** What the first pass writes over Collided: the match of the second pass runs
      from the start up to the opening quote of the written value. */
  const Swallowed := "WSGI_APPLICATION = \"fooROOT_URLCONF = \""
  const Consumed := Assignment(WsgiKey, WsgiValue("s")) + FixedPoint.LeftBehind

  /** The text holds a routing assignment, yet after both passes, with `\s` read
      either way, no ROOT_URLCONF is left in it. */
  lemma SecondPassConsumesRouting(multiline: bool)
    ensures Match(Collided[|WsgiOpen|..], RootKey, multiline).Some?
    ensures Fix(Collided, "s", multiline) == Consumed
    ensures !Contains(Fix(Collided, "s", multiline), RootKey)
  {
    FirstPassOnCollided(multiline);
    SecondPassOnSwallowed(multiline);
    NoRootKeyInConsumed();
  }

  lemma FirstPassOnCollided(multiline: bool)
    ensures Match(Collided[|WsgiOpen|..], RootKey, multiline).Some?
    ensures Sub(Collided, RootKey, Assignment(RootKey, RootValue("s")), multiline)
            == Swallowed + FixedPoint.LeftBehind
  {
    var r1 := Assignment(RootKey, RootValue("s"));
    var out := FirstPassWrites(multiline, r1);
    OpeningThenReplacement(r1);
  }

  /** The first pass keeps the opening and replaces the routing assignment after it. */
  lemma FirstPassWrites(multiline: bool, r1: string) returns (out: string)
    ensures Match(Collided[|WsgiOpen|..], RootKey, multiline).Some?
    ensures out == Sub(Collided, RootKey, r1, multiline) && out == WsgiOpen + r1
  {
    FirstMatchInCollided(multiline, r1);
    CollidedParts();
    SubOfEmpty(Collided[43..], RootKey, r1, multiline);
    out := Sub(Collided, RootKey, r1, multiline);
    DropEmpty(WsgiOpen + r1);
  }

  lemma FirstMatchInCollided(multiline: bool, r1: string)
    ensures Match(Collided[|WsgiOpen|..], RootKey, multiline).Some?
    ensures Sub(Collided, RootKey, r1, multiline)
            == Collided[..23] + r1 + Sub(Collided[43..], RootKey, r1, multiline)
  {
    NoRootInOpening(multiline);
    CollidedParts();
    AssignmentIsMatch(RootKey, "old", multiline);
    SubFirstMatch(Collided, RootKey, r1, multiline, 23, 20);
  }

  lemma DropEmpty(s: string)
    ensures s + [] == s
  {
  }

  lemma SubOfEmpty(s: string, key: string, repl: string, multiline: bool)
    requires s == []
    ensures Sub(s, key, repl, multiline) == []
  {
  }

  lemma OpeningThenReplacement(r1: string)
    requires r1 == Assignment(RootKey, RootValue("s"))
    ensures WsgiOpen + r1 == Swallowed + FixedPoint.LeftBehind
  {
    FixedPoint.RootReplacement();
  }

  lemma CollidedParts()
    ensures |Collided| == 43 && Collided[..23] == WsgiOpen && Collided[23..] == Assignment(RootKey, "old")
    ensures Collided[43..] == []
  {
  }

  lemma NoRootInOpening(multiline: bool)
    ensures forall i :: 0 <= i < 23 ==> Match(Collided[i..], RootKey, multiline).None?
  {
    forall i | 0 <= i < 23 ensures Match(Collided[i..], RootKey, multiline).None? {
      assert Collided[i] == WsgiOpen[i];
      FixedPoint.KeyMismatch(Collided[i..], RootKey, multiline, 0);
    }
  }

  lemma SecondPassOnSwallowed(multiline: bool)
    ensures Sub(Swallowed + FixedPoint.LeftBehind, WsgiKey, Assignment(WsgiKey, WsgiValue("s")), multiline)
            == Consumed
  {
    var u := Swallowed + FixedPoint.LeftBehind;
    var r2 := Assignment(WsgiKey, WsgiValue("s"));
    SwallowedIsMatch(multiline);
    SubStep(u, WsgiKey, r2, multiline);
    assert u[39..] == FixedPoint.LeftBehind;
    SubWithoutKeyStart(FixedPoint.LeftBehind, WsgiKey, r2, multiline);
  }

  lemma SwallowedIsMatch(multiline: bool)
    ensures Match(Swallowed + FixedPoint.LeftBehind, WsgiKey, multiline) == Some(39)
  {
    var u := Swallowed + FixedPoint.LeftBehind;
    assert StartsWith(u, WsgiKey);
    assert u[16] == ' ' && u[17] == '=' && u[18] == ' ' && u[19] == '"' && u[38] == '"';
    forall k | 19 < k < 38 ensures IsPlain(u[k]) {
    }
    MatchComplete(u, WsgiKey, multiline, 17, 19, 39);
  }

  lemma NoRootKeyInConsumed()
    ensures !Contains(Consumed, RootKey)
  {
    NotInAssignment(WsgiKey, WsgiValue("s"), 'R');
    assert 'R' !in Consumed;
    if Contains(Consumed, RootKey) {
      ContainsFirstChar(Consumed, RootKey);
    }
  }

  /** When the text holds a routing assignment, the first pass writes the new one
      at some position p; when no match of the second pass reaches into it, the
      fixed text still holds it. */
  lemma FixKeepsRoutingAssignment(text: string, safe: string, multiline: bool, i: nat)
    returns (p: nat)
    requires i < |text| && Match(text[i..], RootKey, multiline).Some?
    ensures var r1 := Assignment(RootKey, RootValue(safe));
            var urls := Sub(text, RootKey, r1, multiline);
            p + |r1| <= |urls| && urls[p..p + |r1|] == r1
    ensures var r1 := Assignment(RootKey, RootValue(safe));
            Untouched(Sub(text, RootKey, r1, multiline), WsgiKey, multiline, p, |r1|) ==>
              Contains(Fix(text, safe, multiline), r1)
  {
    var r1 := Assignment(RootKey, RootValue(safe));
    var r2 := Assignment(WsgiKey, WsgiValue(safe));
    var found, q, e := SubFirstPiece(text, RootKey, r1, multiline);
    if !found {
      assert false;
    } else {
      p := q;
      var urls := Sub(text, RootKey, r1, multiline);
      WrittenAt(urls, text[..q], r1, Sub(text[q + e..], RootKey, r1, multiline));
      if Untouched(urls, WsgiKey, multiline, p, |r1|) {
        SubKeepsUntouched(urls, WsgiKey, r2, multiline, p, |r1|);
      }
    }
  }

  lemma WrittenAt(out: string, head: string, repl: string, tail: string)
    requires out == head + repl + tail
    ensures |head| + |repl| <= |out| && out[|head|..|head| + |repl|] == repl
  {
  }
}
