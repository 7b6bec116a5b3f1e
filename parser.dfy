/**
 * `pre_process`: raw feed text to intelligence records, one per accepted line,
 * in input order. Comment lines (a `#` in the very first column), blank lines
 * and lines that are not an IPv4/IPv6 address or network are skipped.
 */
module Parser {
  import opened Models
  import opened PyText

  /**
   * Address validation (the `Union[IPv4Address, IPv6Address, IPv4Network,
   * IPv6Network]` field of the record): the canonical text of the parsed value,
   * or None when the text is none of the four.
   */
  type AddressParser = string -> Option<string>

  /** A line the loop hands to validation: no `#` in the raw line's first column, and not blank once stripped. */
  predicate IsCandidate(line: string) {
    !StartsWith(line, "#") && Strip(line) != []
  }

  /** The record one line yields, if any. */
  function ParseLine(line: string, category: string, now: Time, parse: AddressParser): (r: Option<Intel>)
    ensures r.Some? <==> IsCandidate(line) && parse(Strip(line)).Some?
    ensures r.Some? ==> r.value == Intel(parse(Strip(line)).value, now, category)
  {
    if StartsWith(line, "#") then None
    else
      var address := Strip(line);
      if address == [] then None
      else
        TrimIdempotent(line, IsSpace);
        match parse(Strip(address))
        case None => None
        case Some(key) => Some(Intel(key, now, category))
  }

  /** The records of a sequence of lines, in line order. */
  function ParseLines(lines: seq<string>, category: string, now: Time, parse: AddressParser): (r: seq<Intel>)
    ensures |r| <= |lines|
  {
    if lines == [] then []
    else
      var last := lines[|lines| - 1];
      ParseLines(lines[..|lines| - 1], category, now, parse)
        + match ParseLine(last, category, now, parse) case Some(x) => [x] case None => []
  }

  /** The records of a whole feed document. */
  function Parse(contents: string, category: string, now: Time, parse: AddressParser): (r: seq<Intel>)
    ensures contents == [] ==> r == []
    ensures |r| <= |SplitLines(contents)|
  {
    if contents == [] then [] else ParseLines(SplitLines(contents), category, now, parse)
  }

  /** `pre_process(contents, category)`, with every record stamped with the clock reading `now`. */
  method PreProcess(contents: string, category: string, now: Time, parse: AddressParser) returns (results: seq<Intel>)
    ensures results == Parse(contents, category, now, parse)
  {
    results := [];
    if contents == [] {
      return;
    }
    var lines := SplitLines(contents);
    for i := 0 to |lines|
      invariant results == ParseLines(lines[..i], category, now, parse)
    {
      assert lines[..i + 1][..i] == lines[..i];
      var line := lines[i];
      if StartsWith(line, "#") {
        continue;
      }
      var ipAddress := Strip(line);
      if ipAddress == [] {
        continue;
      }
      match parse(Strip(ipAddress)) {
        case Some(key) =>
          results := results + [Intel(key, now, category)];
        case None =>
          // a ValidationError: logged, and the line is dropped
      }
    }
    assert lines[..|lines|] == lines;
  }

  /** Parsing is line by line: the records of two blocks of lines are those of each, in order. */
  lemma {:induction false} ParseLinesAppend(a: seq<string>, b: seq<string>, category: string, now: Time, parse: AddressParser)
    ensures ParseLines(a + b, category, now, parse) == ParseLines(a, category, now, parse) + ParseLines(b, category, now, parse)
    decreases |b|
  {
    if b == [] {
      assert a + b == a;
    } else {
      var b' := b[..|b| - 1];
      assert (a + b)[..|a + b| - 1] == a + b';
      assert (a + b)[|a + b| - 1] == b[|b| - 1];
      ParseLinesAppend(a, b', category, now, parse);
    }
  }

  /** Each line contributes its own record (or nothing) at its own place: order is kept and nothing is merged. */
  lemma ParseLinesAt(lines: seq<string>, i: nat, category: string, now: Time, parse: AddressParser)
    requires i < |lines|
    ensures ParseLines(lines, category, now, parse)
      == ParseLines(lines[..i], category, now, parse)
         + (match ParseLine(lines[i], category, now, parse) case Some(x) => [x] case None => [])
         + ParseLines(lines[i + 1..], category, now, parse)
  {
    assert lines == lines[..i] + [lines[i]] + lines[i + 1..];
    ParseLinesAppend(lines[..i] + [lines[i]], lines[i + 1..], category, now, parse);
    ParseLinesAppend(lines[..i], [lines[i]], category, now, parse);
    assert ([] + [lines[i]])[..0] == [];
  }

  /** Every record comes from a line that is neither a comment nor blank and that validates as an address. */
  lemma {:induction false} ParsedFromCandidate(lines: seq<string>, category: string, now: Time, parse: AddressParser)
    ensures forall x <- ParseLines(lines, category, now, parse) ::
      exists i :: 0 <= i < |lines| && IsCandidate(lines[i]) && ParseLine(lines[i], category, now, parse) == Some(x)
  {
    if lines != [] {
      var init := lines[..|lines| - 1];
      ParsedFromCandidate(init, category, now, parse);
      forall x <- ParseLines(lines, category, now, parse)
        ensures exists i :: 0 <= i < |lines| && IsCandidate(lines[i]) && ParseLine(lines[i], category, now, parse) == Some(x)
      {
        if x in ParseLines(init, category, now, parse) {
          var i :| 0 <= i < |init| && IsCandidate(init[i]) && ParseLine(init[i], category, now, parse) == Some(x);
          assert lines[i] == init[i];
        } else {
          assert ParseLine(lines[|lines| - 1], category, now, parse) == Some(x);
        }
      }
    }
  }

  /** Duplicates are kept: a valid line given twice yields its record twice. */
  lemma DuplicatesKept(line: string, category: string, now: Time, parse: AddressParser)
    requires ParseLine(line, category, now, parse).Some?
    ensures var x := ParseLine(line, category, now, parse).value;
      ParseLines([line, line], category, now, parse) == [x, x]
  {
  }

  /** The comment test looks at the raw line: an indented `#` line is not a comment and goes to validation. */
  lemma IndentedHashIsNotComment(category: string, now: Time, parse: AddressParser)
    ensures ParseLine("  #x", category, now, parse)
      == match parse("#x") case Some(key) => Some(Intel(key, now, category)) case None => None
  {
    var line := "  #x";
    var rest := "#x";
    assert line[..1] == " " && line[..1] != "#";
    assert IsSpace(line[0]) && line[1..] == " #x";
    assert IsSpace(line[1..][0]) && line[1..][1..] == rest;
    assert !IsSpace(rest[0]) && !IsSpace(rest[|rest| - 1]);
    assert TrimLeft(rest, IsSpace) == rest;
    assert TrimRight(rest, IsSpace) == rest;
    assert Strip(line) == rest;
    assert Strip(rest) == rest;
  }
}
