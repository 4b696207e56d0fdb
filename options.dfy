/** The options csvtool cooks before it reads any input: the `--join`
    spec (separator character plus FIELDSPEC), the `--keep` FIELDSPEC and the
    `--outfmt` name. */
module Options {
  import opened Text
  import opened Cells
  import opened FieldSpec
  import opened Tables

  datatype OutFormat = Csv | Shell | Table(style: Style) | Markdown

  /** A fatal option error: a FIELDSPEC `parse_range` rejects, or an
      `--outfmt` value that is refused (carrying that value). */
  datatype OptionError = BadRange(e: SpecError) | BadOutFormat(value: string)

  /** The `--join` option once cooked: separator and ranges, the ranges in
      the order they are applied. */
  datatype JoinSpec = JoinSpec(sep: char, ranges: seq<Range>)

  /** The options the row loop and the writers depend on. */
  datatype Settings = Settings(join: Option<JoinSpec>, keep: seq<Range>, outfmt: OutFormat)

  /** Lines 425-437: the `--outfmt` check. Names starting with "table" are
      "table" itself (box style) or "table-" and a style name; everything
      else must be csv, shell or markdown. */
  function ParseOutFormat(s: string): (r: Result<OutFormat, string>)
    ensures r.Err? ==> r.error == s
  {
    if |s| >= 5 && s[..5] == "table" then
      if |s| == 5 then Ok(Table(Box))
      else if s[5] != '-' then Err(s)
      else
        var style := s[6..];
        if style == "ascii" then Ok(Table(Ascii))
        else if style == "box" then Ok(Table(Box))
        else if style == "nosep" then Ok(Table(NoSep))
        else Err(s)
    else if s == "csv" then Ok(Csv)
    else if s == "shell" then Ok(Shell)
    else if s == "markdown" then Ok(Markdown)
    else Err(s)
  }

  /** The list in the opposite order. */
  function Reversed<T>(s: seq<T>): (r: seq<T>)
    ensures |r| == |s|
    ensures forall k :: 0 <= k < |s| ==> r[k] == s[|s| - 1 - k]
  {
    if |s| == 0 then [] else Reversed(s[1..]) + [s[0]]
  }

  /** Lines 414-420: an empty or missing spec joins nothing; otherwise its
      first character is the separator and the rest a FIELDSPEC, whose
      ranges are applied last to first. */
  function CookJoin(spec: string): (r: Result<Option<JoinSpec>, SpecError>)
    ensures spec == "" ==> r == Ok(None)
    ensures spec != "" && r.Ok? ==> r.value.Some? && r.value.value.sep == spec[0]
  {
    if spec == "" then Ok(None)
    else
      match ParseRange(spec[1..])
      case Err(e) => Err(e)
      case Ok(rs) => Ok(Some(JoinSpec(spec[0], Reversed(rs))))
  }

  /** Lines 423-424: an empty or missing spec keeps everything (no ranges). */
  function CookKeep(spec: string): (r: Result<seq<Range>, SpecError>)
    ensures spec == "" ==> r == Ok([])
    ensures spec != "" && r.Ok? ==> |r.value| >= 1
  {
    if spec == "" then Ok([]) else ParseRange(spec)
  }

  /** Lines 414-437 in their order: the join spec is parsed first, then the
      keep spec, then the output format is checked; the first failure is the
      one reported. */
  function Cook(join: string, keep: string, outfmt: string): (r: Result<Settings, OptionError>)
    ensures r.Ok? <==> CookJoin(join).Ok? && CookKeep(keep).Ok? && ParseOutFormat(outfmt).Ok?
    ensures r.Ok? ==> r.value == Settings(CookJoin(join).value, CookKeep(keep).value, ParseOutFormat(outfmt).value)
    ensures CookJoin(join).Err? ==> r == Err(BadRange(CookJoin(join).error))
    ensures CookJoin(join).Ok? && CookKeep(keep).Err? ==> r == Err(BadRange(CookKeep(keep).error))
    ensures CookJoin(join).Ok? && CookKeep(keep).Ok? && ParseOutFormat(outfmt).Err? ==> r == Err(BadOutFormat(outfmt))
  {
    match CookJoin(join)
    case Err(e) => Err(BadRange(e))
    case Ok(j) =>
      match CookKeep(keep)
      case Err(e) => Err(BadRange(e))
      case Ok(k) =>
        match ParseOutFormat(outfmt)
        case Err(s) => Err(BadOutFormat(s))
        case Ok(f) => Ok(Settings(j, k, f))
  }

  // ---------------------------------------------------------------------
  // Properties

  /** Exactly seven names are accepted. */
  lemma OutFormatAccepted(s: string)
    ensures ParseOutFormat(s).Ok? <==>
      s == "csv" || s == "shell" || s == "markdown" || s == "table"
      || s == "table-ascii" || s == "table-box" || s == "table-nosep"
  {
    if |s| >= 5 && s[..5] == "table" {
      assert "markdown"[..5] == "markd";
      if |s| == 5 {
        assert s == "table";
      } else if s[5] == '-' {
        TableDash(s);
        var style := s[6..];
        assert "table-" + "ascii" == "table-ascii" && "table-" + "box" == "table-box" && "table-" + "nosep" == "table-nosep";
        assert s == "table-ascii" <==> style == "ascii";
        assert s == "table-box" <==> style == "box";
        assert s == "table-nosep" <==> style == "nosep";
      }
    } else {
      assert "table"[..5] == "table" && "table-ascii"[..5] == "table";
      assert "table-box"[..5] == "table" && "table-nosep"[..5] == "table";
    }
  }

  lemma TableDash(s: string)
    requires |s| > 5 && s[..5] == "table" && s[5] == '-'
    ensures s == "table-" + s[6..]
  {
    assert s == s[..5] + [s[5]] + s[6..];
  }

  /** The format each accepted name selects, with the style of each table name. */
  lemma OutFormatStyles()
    ensures ParseOutFormat("csv") == Ok(Csv)
    ensures ParseOutFormat("shell") == Ok(Shell)
    ensures ParseOutFormat("markdown") == Ok(Markdown)
    ensures ParseOutFormat("table") == Ok(Table(Box))
    ensures ParseOutFormat("table-box") == Ok(Table(Box))
    ensures ParseOutFormat("table-ascii") == Ok(Table(Ascii))
    ensures ParseOutFormat("table-nosep") == Ok(Table(NoSep))
  {
    assert "shell"[..5] == "shell" && "markdown"[..5] == "markd";
    assert "table-box"[6..] == "box";
    assert "table-ascii"[6..] == "ascii";
    assert "table-nosep"[6..] == "nosep";
  }

  /** Reversing twice gives the list back. */
  lemma {:induction false} ReversedTwice<T>(s: seq<T>)
    ensures Reversed(Reversed(s)) == s
  {
    var r := Reversed(s);
    var rr := Reversed(r);
    assert |rr| == |s|;
    forall k | 0 <= k < |s|
      ensures rr[k] == s[k]
    {
    }
  }

  /** The ranges of a cooked join are the FIELDSPEC's, last first. */
  lemma CookJoinReverses(spec: string)
    requires spec != "" && CookJoin(spec).Ok?
    ensures ParseRange(spec[1..]).Ok?
    ensures CookJoin(spec).value.value.ranges == Reversed(ParseRange(spec[1..]).value)
    ensures Reversed(CookJoin(spec).value.value.ranges) == ParseRange(spec[1..]).value
  {
    ReversedTwice(ParseRange(spec[1..]).value);
  }
}
