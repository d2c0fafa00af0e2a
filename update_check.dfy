/**
 * The pure parts of app/update_check.py: the tag clean-up applied to the
 * latest GitHub release and the dot-separated version parser.
 */
module UpdateCheck {
  import opened Wrappers
  import opened Text

  /** `data["tag_name"].lstrip("v")`: the tag without its leading `v`s. */
  function ReleaseTag(tagName: string): (r: string)
    ensures r == [] || r[0] != 'v'
    ensures |r| <= |tagName| && tagName[|tagName| - |r|..] == r
    ensures forall i :: 0 <= i < |tagName| - |r| ==> tagName[i] == 'v'
    ensures tagName == [] || tagName[0] != 'v' ==> r == tagName
  {
    LStripChar(tagName, 'v')
  }

  lemma ReleaseTagExample()
    ensures ReleaseTag("v1.2.3") == "1.2.3"
  {
    assert "v1.2.3"[1..] == "1.2.3";
    assert LStripChar("v1.2.3", 'v') == "1.2.3";
  }

  /** `parse` (which is `int`) applied to each piece, failing (`None`) as soon as one piece fails. */
  function ParseAll(pieces: seq<string>, parse: string -> Option<int>): Option<seq<int>>
  {
    if pieces == [] then Some([])
    else
      match parse(pieces[0])
      case None => None
      case Some(x) =>
        match ParseAll(pieces[1..], parse)
        case None => None
        case Some(xs) => Some([x] + xs)
  }

  /** Every piece parses, and the results are in order; otherwise some piece fails. */
  lemma {:induction false} ParseAllMeaning(pieces: seq<string>, parse: string -> Option<int>)
    ensures var r := ParseAll(pieces, parse);
      && (r.Some? ==> |r.value| == |pieces| && forall i :: 0 <= i < |pieces| ==> parse(pieces[i]) == Some(r.value[i]))
      && (r.None? <==> exists i :: 0 <= i < |pieces| && parse(pieces[i]).None?)
  {
    if pieces != [] {
      var rest := pieces[1..];
      ParseAllMeaning(rest, parse);
      assert forall i :: 0 < i < |pieces| ==> pieces[i] == rest[i - 1];
      if parse(pieces[0]).Some? && ParseAll(rest, parse).None? {
        var i :| 0 <= i < |rest| && parse(rest[i]).None?;
        assert parse(pieces[i + 1]).None?;
      }
    }
  }

  /**
   * `normalize(v)`: one integer per `.`-separated piece; `None` stands for
   * the ValueError raised when a piece is empty or not an integer.
   */
  function Normalize(v: string): (r: Option<seq<int>>)
    ensures r.None? <==> exists i :: 0 <= i < |Split(v, '.')| && ParseInt(Split(v, '.')[i]).None?
    ensures r.Some? ==> |r.value| == |Split(v, '.')|
    ensures r.Some? ==> forall i :: 0 <= i < |Split(v, '.')| ==> ParseInt(Split(v, '.')[i]) == Some(r.value[i])
  {
    var pieces, parse: string -> Option<int> := Split(v, '.'), ParseInt;
    ParseAllMeaning(pieces, parse);
    assert forall i :: 0 <= i < |pieces| ==> parse(pieces[i]) == ParseInt(pieces[i]);
    assert ParseAll(pieces, parse).None? ==> exists i :: 0 <= i < |Split(v, '.')| && ParseInt(Split(v, '.')[i]).None? by {
      if ParseAll(pieces, parse).None? {
        var i :| 0 <= i < |pieces| && parse(pieces[i]).None?;
        assert 0 <= i < |Split(v, '.')| && ParseInt(Split(v, '.')[i]).None?;
      }
    }
    ParseAll(pieces, parse)
  }

  /** The decimal renderings of a list of naturals. */
  function Render(xs: seq<nat>): (r: seq<string>)
    ensures |r| == |xs|
    ensures forall i :: 0 <= i < |xs| ==> r[i] == NatToString(xs[i])
  {
    seq(|xs|, i requires 0 <= i < |xs| => NatToString(xs[i]))
  }

  /**
   * The decimal rendering of a natural has no `.`; it parses back to the
   * natural when it has at most `MaxStrDigits` digits, and raises otherwise.
   */
  lemma RenderedPiece(x: nat)
    ensures '.' !in NatToString(x)
    ensures WithinStrDigits(x) ==> ParseInt(NatToString(x)) == Some(x)
    ensures !WithinStrDigits(x) ==> ParseInt(NatToString(x)) == None
  {
    var p := NatToString(x);
    DecimalValueOfNatToString(x);
  }

  /** When every piece parses, `ParseAll` returns the parsed values in order. */
  lemma {:induction false} ParseAllOfParsed(pieces: seq<string>, parse: string -> Option<int>, xs: seq<int>)
    requires |pieces| == |xs| && forall i :: 0 <= i < |pieces| ==> parse(pieces[i]) == Some(xs[i])
    ensures ParseAll(pieces, parse) == Some(xs)
  {
    if pieces != [] {
      assert parse(pieces[0]) == Some(xs[0]);
      ParseAllOfParsed(pieces[1..], parse, xs[1..]);
      assert xs == [xs[0]] + xs[1..];
    }
  }

  lemma ParseAllRendered(xs: seq<nat>)
    requires forall i :: 0 <= i < |xs| ==> WithinStrDigits(xs[i])
    ensures ParseAll(Render(xs), ParseInt) == Some(xs)
  {
    var pieces := Render(xs);
    forall i | 0 <= i < |pieces| ensures ParseInt(pieces[i]) == Some(xs[i]) {
      RenderedPiece(xs[i]);
    }
    ParseAllOfParsed(pieces, ParseInt, xs);
  }

  /**
   * Round trip: rendering naturals, joining them with `.` and normalising
   * gives them back, unless one of them has more digits than `int()` reads.
   */
  lemma NormalizeRoundTrip(xs: seq<nat>)
    requires |xs| >= 1
    ensures (forall i :: 0 <= i < |xs| ==> WithinStrDigits(xs[i])) ==> Normalize(Join(Render(xs), '.')) == Some(xs)
    ensures (exists i :: 0 <= i < |xs| && !WithinStrDigits(xs[i])) ==> Normalize(Join(Render(xs), '.')) == None
  {
    var pieces := Render(xs);
    forall i | 0 <= i < |pieces| ensures '.' !in pieces[i] {
      RenderedPiece(xs[i]);
    }
    SplitJoin(pieces, '.');
    if forall i :: 0 <= i < |xs| ==> WithinStrDigits(xs[i]) {
      ParseAllRendered(xs);
    } else {
      var i :| 0 <= i < |xs| && !WithinStrDigits(xs[i]);
      RenderedPiece(xs[i]);
      ParseAllFails(pieces, ParseInt, i);
    }
  }

  lemma NormalizeExample()
    ensures Normalize("1.2.3") == Some([1, 2, 3])
  {
    assert Render([1, 2, 3]) == ["1", "2", "3"] by {
      assert NatToString(1) == "1" && NatToString(2) == "2" && NatToString(3) == "3";
    }
    assert Join(["1", "2", "3"], '.') == "1.2.3" by {
      assert Join(["3"], '.') == "3";
      assert Join(["2", "3"], '.') == "2.3";
    }
    SmallWithinStrDigits([1, 2, 3]);
    NormalizeRoundTrip([1, 2, 3]);
  }

  /** An empty piece is not an integer. */
  lemma NormalizeRejectsEmpty()
    ensures Normalize("") == None
  {
    assert Split("", '.') == [""];
    assert ParseInt("") == None;
  }

  lemma NormalizeRejectsDoubleDot()
    ensures Normalize("1..2") == None
  {
    SplitJoin(["1", "", "2"], '.');
    assert Join(["2"], '.') == "2";
    assert Join(["", "2"], '.') == ".2";
    assert Join(["1", "", "2"], '.') == "1..2";
    assert ParseInt(["1", "", "2"][1]) == None;
  }

  /** One piece that does not parse makes the whole version fail. */
  lemma ParseAllFails(pieces: seq<string>, parse: string -> Option<int>, i: nat)
    requires i < |pieces| && parse(pieces[i]).None?
    ensures ParseAll(pieces, parse) == None
  {
    ParseAllMeaning(pieces, parse);
  }

  /**
   * A character that is none of a digit, a sign, an underscore, the
   * whitespace `int` skips, or the dot lands in some piece, which `int`
   * then refuses.
   */
  lemma NormalizeRejectsNonNumeric(v: string, i: nat)
    requires i < |v| && !NumeralChar(v[i]) && !IsIntSpace(v[i]) && v[i] != '.'
    ensures Normalize(v) == None
  {
    var pieces := Split(v, '.');
    var j, k := PieceOf(pieces, '.', i);
    assert !NumeralChar(pieces[j][k]) && !IsIntSpace(pieces[j][k]);
    ParseAllFails(pieces, ParseInt, j);
  }

  /** A piece that is not a number is refused. */
  lemma NormalizeRejectsLetters()
    ensures Normalize("1.2.X") == None
  {
    NormalizeRejectsNonNumeric("1.2.X", 4);
  }

  /** A file separator (U+001C) inside a piece makes `normalize` raise. */
  lemma NormalizeRejectsSeparator()
    ensures Normalize(['1', '.', 28 as char, '2']) == None
  {
    NormalizeRejectsNonNumeric(['1', '.', 28 as char, '2'], 2);
  }
}
