/** Worked instances of the scanner and the responder on concrete messages. */
module Examples {
  import opened Wrappers
  import opened Scan
  import opened Configuration
  import opened Respond

  /** The scan from a head whose digit run is a single digit. */
  lemma ScanOneDigit(body: string, p: string, i: nat)
    requires i + |p| + 2 <= |body| && FoldedAt(body, p, i)
    requires body[i + |p|] == '-' && IsDigit(body[i + |p| + 1])
    requires i + |p| + 2 == |body| || !IsDigit(body[i + |p| + 2])
    ensures Spans(body, p, i) == [Span(i, i + |p| + 2)] + Spans(body, p, i + |p| + 2)
  {
    assert DigitRun(body, i + |p| + 2) == 0;
    assert MatchEnd(body, p, i) == i + |p| + 2;
  }

  /** The scan passes over a position whose character cannot start the prefix. */
  lemma ScanSkip(body: string, p: string, i: nat)
    requires i < |body| && |p| > 0 && Fold(body[i]) != Fold(p[0])
    ensures Spans(body, p, i) == Spans(body, p, i + 1)
  {
    assert !FoldedAt(body, p, i);
  }

  /** The ids read off a scan that found exactly two references. */
  lemma TwoIds(body: string, p: string)
    requires Spans(body, p, 0) == [Span(0, 5), Span(6, 11)]
    ensures 11 <= |body|
    ensures FindAll(body, p) == [body[0..5], body[6..11]]
  {
    assert Spans(body, p, 0)[1].end == 11;
  }

  /** There is no word boundary before the prefix and the digit run is greedy. */
  lemma NoWordBoundary()
    ensures FindAll("XFOO-12", "FOO") == ["FOO-12"]
  {
    var b, p := "XFOO-12", "FOO";
    NoWordBoundarySpans();
    assert b[1..7] == "FOO-12";
  }

  /** Where the one reference of `XFOO-12` lies. */
  lemma NoWordBoundarySpans()
    ensures Spans("XFOO-12", "FOO", 0) == [Span(1, 7)]
  {
    var b, p := "XFOO-12", "FOO";
    assert Spans(b, p, 0) == [Span(1, 7)] by {
      ScanSkip(b, p, 0);
      assert FoldedAt(b, p, 1) by {
        assert b[1] == 'F' && b[2] == 'O' && b[3] == 'O';
      }
      assert HeadAt(b, p, 1);
      assert DigitRun(b, 7) == 0;
      assert DigitRun(b, 5) == 2;
      assert MatchEnd(b, p, 1) == 7;
      assert Spans(b, p, 7) == [];
    }
  }

  /** The scan of `FOO-1`, a space, then `body[6..11]` when that is a
      one-digit reference spelled `FOO` up to case. */
  lemma ScanTwoRefs(b: string)
    requires |b| == 11 && b[..6] == "FOO-1 " && FoldedAt(b, "FOO", 6)
    requires b[9] == '-' && IsDigit(b[10])
    ensures Spans(b, "FOO", 0) == [Span(0, 5), Span(6, 11)]
  {
    var p := "FOO";
    assert b[0] == 'F' && b[1] == 'O' && b[2] == 'O' && b[3] == '-' && b[4] == '1' && b[5] == ' ';
    assert FoldedAt(b, p, 0);
    ScanOneDigit(b, p, 0);
    ScanSkip(b, p, 5);
    ScanOneDigit(b, p, 6);
    assert Spans(b, p, 11) == [];
  }

  /** Where the two references of `FOO-1 foo-1` lie. */
  lemma CaseVariantsSpans()
    ensures Spans("FOO-1 foo-1", "FOO", 0) == [Span(0, 5), Span(6, 11)]
  {
    var b, p := "FOO-1 foo-1", "FOO";
    assert b[..6] == "FOO-1 ";
    assert FoldedAt(b, p, 6) by {
      assert b[6] == 'f' && b[7] == 'o' && b[8] == 'o';
    }
    ScanTwoRefs(b);
  }

  /** Case variants of one id are both reported, each with the body's casing. */
  lemma CaseVariantsKept()
    ensures Matches("FOO-1 foo-1", ["FOO"]) == ["FOO-1", "foo-1"]
  {
    var b, p := "FOO-1 foo-1", "FOO";
    assert FindAll(b, p) == [b[0..5], b[6..11]] by {
      CaseVariantsSpans();
      TwoIds(b, p);
    }
    assert b[0..5] == "FOO-1" && b[6..11] == "foo-1";
    assert Matches(b, [p]) == FindAll(b, p) + Matches(b, []);
  }

  /** Where the two references of `FOO-1 FOO-1` lie. */
  lemma RepeatSpans()
    ensures Spans("FOO-1 FOO-1", "FOO", 0) == [Span(0, 5), Span(6, 11)]
  {
    var b, p := "FOO-1 FOO-1", "FOO";
    assert b[..6] == "FOO-1 ";
    assert FoldedAt(b, p, 6) by {
      assert b[6] == 'F' && b[7] == 'O' && b[8] == 'O';
    }
    ScanTwoRefs(b);
  }

  /** A reference repeated in one body is reported once per occurrence. */
  lemma RepeatReported()
    ensures FindAll("FOO-1 FOO-1", "FOO") == ["FOO-1", "FOO-1"]
  {
    var b, p := "FOO-1 FOO-1", "FOO";
    assert FindAll(b, p) == [b[0..5], b[6..11]] by {
      RepeatSpans();
      TwoIds(b, p);
    }
    assert b[0..5] == "FOO-1" && b[6..11] == "FOO-1" by {
      assert b[0..5] == b[6..11] == b[..5];
    }
  }

  /** A configuration tracking the single project `FOO`. */
  const FooOnly: Option<Config> := Some(map[UrlKey := Text("http://t"), ProjectsKey := Texts(["FOO"])])

  /** A reference repeated in one message is looked up once: whatever the
      iteration order of the set, the only lookup is `FOO-1`. */
  lemma RepeatLookedUpOnce(order: seq<string>, lookup: string -> Issue)
    requires Enumerates(order, ["FOO-1", "FOO-1"])
    ensures Candidates(FooOnly, "FOO-1 FOO-1") == Success(["FOO-1", "FOO-1"])
    ensures ResponseText(FooOnly, "FOO-1 FOO-1", order, lookup).Success?
    ensures ResponseText(FooOnly, "FOO-1 FOO-1", order, lookup).value.looked == ["FOO-1"]
  {
    var b, p := "FOO-1 FOO-1", "FOO";
    RepeatReported();
    assert Matches(b, [p]) == FindAll(b, p) + Matches(b, []);
    var config := FooOnly;
    assert UrlKey in config.value;
    assert Truthy(config);
    assert Prefixes(config.value) == Success([p]);
    assert Matches(b, [p]) == ["FOO-1", "FOO-1"];
    assert Candidates(config, b) == Success(["FOO-1", "FOO-1"]);
    SingleReference(config, b, order, lookup, "FOO-1", "http://t");
  }

  /** A project list given as one string is iterated character by character,
      so every character becomes a prefix of its own. */
  lemma StringProjectsSplit()
    ensures Prefixes(map[ProjectsKey := Text("AB")]) == Success(["A", "B"])
  {
    var config := map[ProjectsKey := Text("AB")];
    assert ProjectsKey in config && config[ProjectsKey] == Text("AB");
    var ps := Prefixes(config).value;
    assert |ps| == 2 && ps[0] == ["AB"[0]] && ps[1] == ["AB"[1]];
    assert ps == ["A", "B"];
  }
}
