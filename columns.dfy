/** Loading the colour table's header row and resolving which headers hold the
    red, green and blue channels and the colour name. */
module Columns {
  import opened Wrappers
  import opened Text

  /** The four columns the matcher needs, in the order they are reported. */
  datatype Field = R | G | B | ColorName

  /** Position of a field in the reporting order R, G, B, color_name. */
  function Rank(f: Field): nat {
    match f
    case R => 0
    case G => 1
    case B => 2
    case ColorName => 3
  }

  /** The label under which a missing field is reported. */
  function Label(f: Field): (l: string)
    ensures l in ["R", "G", "B", "color_name"]
    ensures ',' !in l
  {
    match f
    case R => "R"
    case G => "G"
    case B => "B"
    case ColorName => "color_name"
  }

  /** Whether header `h` qualifies for field `f`: a channel header must
      lower-case to the channel's letter, the name header must contain both
      "color" and "name" once lower-cased. */
  predicate Matches(f: Field, h: string): (m: bool)
    ensures f == R ==> (m <==> h == "r" || h == "R")
    ensures f == G ==> (m <==> h == "g" || h == "G")
    ensures f == B ==> (m <==> h == "b" || h == "B")
  {
    LowerIsLetter(h, 'r');
    LowerIsLetter(h, 'g');
    LowerIsLetter(h, 'b');
    match f
    case R => Lower(h) == "r"
    case G => Lower(h) == "g"
    case B => Lower(h) == "b"
    case ColorName => Contains(Lower(h), "color") && Contains(Lower(h), "name")
  }

  /** Index of the first header that qualifies for `f`, if any. */
  function FirstMatch(headers: seq<string>, f: Field): (r: Option<nat>)
    ensures r.Some? ==> r.value < |headers| && Matches(f, headers[r.value])
    ensures r.Some? ==> forall j :: 0 <= j < r.value ==> !Matches(f, headers[j])
    ensures r.None? ==> forall j :: 0 <= j < |headers| ==> !Matches(f, headers[j])
  {
    if |headers| == 0 then None
    else if Matches(f, headers[0]) then Some(0)
    else
      match FirstMatch(headers[1..], f)
      case None => None
      case Some(k) => Some(k + 1)
  }

  /** `h` is the header chosen for `f`: it qualifies, it is a header, and it
      occurs at or before every qualifying header. */
  predicate IsFirstColumn(headers: seq<string>, f: Field, h: string) {
    Matches(f, h) && h in headers &&
    forall j :: 0 <= j < |headers| && Matches(f, headers[j]) ==> h in headers[..j + 1]
  }

  /** The header at the first qualifying index is the first qualifying header. */
  lemma FirstMatchIsFirstColumn(headers: seq<string>, f: Field)
    ensures FirstMatch(headers, f).Some? ==> IsFirstColumn(headers, f, headers[FirstMatch(headers, f).value])
  {
    var r := FirstMatch(headers, f);
    if r.Some? {
      var i := r.value;
      assert headers[i] in headers[..i + 1];
      forall j | 0 <= j < |headers| && Matches(f, headers[j])
        ensures headers[i] in headers[..j + 1]
      {
        assert i <= j;
        assert headers[..j + 1][i] == headers[i];
      }
    }
  }

  /** The header chosen for `f` (Python's `next(..., None)` over the
      qualifying headers): none exactly when no header qualifies, otherwise
      the first qualifying header in table order. */
  function Column(headers: seq<string>, f: Field): (c: Option<string>)
    ensures c.None? <==> forall h :: h in headers ==> !Matches(f, h)
    ensures c.Some? ==> IsFirstColumn(headers, f, c.value)
  {
    FirstMatchIsFirstColumn(headers, f);
    match FirstMatch(headers, f)
    case None => None
    case Some(i) => Some(headers[i])
  }

  /** The list built from four "not found" flags: each field whose flag is
      set, in the order R, G, B, color_name. */
  function MissingOf(noR: bool, noG: bool, noB: bool, noName: bool): (m: seq<Field>)
    ensures R in m <==> noR
    ensures G in m <==> noG
    ensures B in m <==> noB
    ensures ColorName in m <==> noName
    ensures forall i, j :: 0 <= i < j < |m| ==> Rank(m[i]) < Rank(m[j])
  {
    (if noR then [R] else []) + (if noG then [G] else []) +
    (if noB then [B] else []) + (if noName then [ColorName] else [])
  }

  /** The fields whose column was not found, in the order R, G, B,
      color_name. */
  function MissingFields(headers: seq<string>): (m: seq<Field>)
    ensures R in m <==> FirstMatch(headers, R).None?
    ensures G in m <==> FirstMatch(headers, G).None?
    ensures B in m <==> FirstMatch(headers, B).None?
    ensures ColorName in m <==> FirstMatch(headers, ColorName).None?
    ensures forall i, j :: 0 <= i < j < |m| ==> Rank(m[i]) < Rank(m[j])
  {
    MissingOf(FirstMatch(headers, R).None?, FirstMatch(headers, G).None?,
              FirstMatch(headers, B).None?, FirstMatch(headers, ColorName).None?)
  }

  /** Outcome of resolving the header row: either all four columns, or the
      list of fields that could not be found (the error the user is shown). */
  datatype Resolution =
    | Resolved(r: string, g: string, b: string, name: string)
    | MissingColumns(fields: seq<Field>)

  /** Resolves the header row into the four columns the matcher reads. */
  function CompatibleColumns(headers: seq<string>): (res: Resolution)
    ensures res.Resolved? <==> MissingFields(headers) == []
    ensures res.MissingColumns? ==> res.fields == MissingFields(headers) && res.fields != []
    ensures res.Resolved? ==>
      IsFirstColumn(headers, R, res.r) && IsFirstColumn(headers, G, res.g) &&
      IsFirstColumn(headers, B, res.b) && IsFirstColumn(headers, ColorName, res.name)
  {
    var missing := MissingFields(headers);
    if missing != [] then
      MissingColumns(missing)
    else
      Resolved(Column(headers, R).value, Column(headers, G).value,
               Column(headers, B).value, Column(headers, ColorName).value)
  }

  function Labels(fields: seq<Field>): (ls: seq<string>)
    ensures |ls| == |fields|
    ensures forall i :: 0 <= i < |fields| ==> ls[i] == Label(fields[i])
  {
    seq(|fields|, i requires 0 <= i < |fields| => Label(fields[i]))
  }

  const MessagePrefix: string := "Missing columns in colors.csv: "

  /** The error text shown to the user for a failed resolution: the prefix
      followed by the labels of the missing fields joined with ", ". The
      labels can be read back by splitting the rest of the text at ", ". */
  function MissingMessage(fields: seq<Field>): (msg: string)
    ensures |msg| >= |MessagePrefix| && msg[..|MessagePrefix|] == MessagePrefix
    ensures fields == [] ==> msg == MessagePrefix
    ensures fields != [] ==> Split(msg[|MessagePrefix|..], ", ") == Labels(fields)
    ensures |fields| == 1 ==> msg == MessagePrefix + Label(fields[0])
  {
    var ls := Labels(fields);
    assert forall i :: 0 <= i < |ls| ==> ','  !in ls[i];
    assert (MessagePrefix + Join(ls, ", "))[|MessagePrefix|..] == Join(ls, ", ");
    MessagePrefix + Join(Labels(fields), ", ")
  }

  /** Header normalisation done when the table is loaded: every header is
      stripped of surrounding whitespace. */
  function StripHeaders(raw: seq<string>): (hs: seq<string>)
    ensures |hs| == |raw|
    ensures forall i :: 0 <= i < |raw| ==> hs[i] == Strip(raw[i])
    ensures forall i :: 0 <= i < |hs| && hs[i] != [] ==> !IsSpace(hs[i][0]) && !IsSpace(hs[i][|hs[i]| - 1])
  {
    seq(|raw|, i requires 0 <= i < |raw| => Strip(raw[i]))
  }

  /** Loading is idempotent on headers: stripping already stripped headers
      changes nothing. */
  lemma StripHeadersIdempotent(raw: seq<string>)
    ensures StripHeaders(StripHeaders(raw)) == StripHeaders(raw)
  {
    var hs := StripHeaders(raw);
    forall i | 0 <= i < |raw| ensures StripHeaders(hs)[i] == hs[i] {
      StripIdempotent(raw[i]);
    }
  }

  /** Resolution is case-insensitive: two header rows that agree once
      lower-cased resolve every field to the same position, so they either
      both resolve or report the same missing fields. */
  lemma {:induction false} FirstMatchIgnoresCase(hs: seq<string>, hs': seq<string>, f: Field)
    requires |hs| == |hs'|
    requires forall i :: 0 <= i < |hs| ==> Lower(hs[i]) == Lower(hs'[i])
    ensures FirstMatch(hs, f) == FirstMatch(hs', f)
    decreases |hs|
  {
    if |hs| > 0 {
      assert Matches(f, hs[0]) == Matches(f, hs'[0]);
      FirstMatchIgnoresCase(hs[1..], hs'[1..], f);
    }
  }

  lemma ResolutionIgnoresCase(hs: seq<string>, hs': seq<string>)
    requires |hs| == |hs'|
    requires forall i :: 0 <= i < |hs| ==> Lower(hs[i]) == Lower(hs'[i])
    ensures CompatibleColumns(hs).Resolved? <==> CompatibleColumns(hs').Resolved?
    ensures MissingFields(hs) == MissingFields(hs')
  {
    FirstMatchIgnoresCase(hs, hs', R);
    FirstMatchIgnoresCase(hs, hs', G);
    FirstMatchIgnoresCase(hs, hs', B);
    FirstMatchIgnoresCase(hs, hs', ColorName);
    assert MissingFields(hs) == MissingFields(hs');
  }

  /** Both header spellings of the colour-name column used in the examples
      qualify. */
  lemma ColorNameHeadersQualify()
    ensures Matches(ColorName, "Color Name") && Matches(ColorName, "color_name")
  {
    QualifiesAsColorName("Color Name", "color name");
    QualifiesAsColorName("color_name", "color_name");
  }

  /** A header whose lower-case form starts with "color", has a separator,
      and then "name" qualifies as the colour-name column. */
  lemma QualifiesAsColorName(h: string, l: string)
    requires |l| == 10 && l[..5] == "color" && l[6..] == "name"
    requires Lower(h) == l
    ensures Matches(ColorName, h)
  {
    assert OccursAt(l, "color", 0);
    assert OccursAt(l, "name", 6);
  }

  /** Once the first qualifying index of every field is known, resolution
      returns the headers at those indices. */
  lemma ResolvedAt(hs: seq<string>, iR: nat, iG: nat, iB: nat, iN: nat)
    requires FirstMatch(hs, R) == Some(iR) && FirstMatch(hs, G) == Some(iG)
    requires FirstMatch(hs, B) == Some(iB) && FirstMatch(hs, ColorName) == Some(iN)
    ensures CompatibleColumns(hs) == Resolved(hs[iR], hs[iG], hs[iB], hs[iN])
  {
    assert MissingFields(hs) == MissingOf(false, false, false, false) == [];
  }

  /** Mixed-case headers resolve, each field to its first qualifying header. */
  lemma MixedCaseHeadersResolveAsIs()
    ensures CompatibleColumns(["r", "G", "B", "Color Name"]) == Resolved("r", "G", "B", "Color Name")
  {
    var hs := ["r", "G", "B", "Color Name"];
    assert FirstMatch(hs, R) == Some(0);
    assert FirstMatch(hs, G) == Some(1) by {
      assert Lower("G") == "g";
    }
    assert FirstMatch(hs, B) == Some(2) by {
      assert Lower("B") == "b";
    }
    assert FirstMatch(hs, ColorName) == Some(3) by {
      ColorNameHeadersQualify();
    }
    ResolvedAt(hs, 0, 1, 2, 3);
  }

  /** A header that neither is empty nor starts or ends with whitespace. */
  predicate Unpadded(h: string) {
    h != [] && !IsSpace(h[0]) && !IsSpace(h[|h| - 1])
  }

  /** Loading keeps unpadded headers and strips the spaces around a padded
      one, as in the row "r", "G", " B ", "Color Name". */
  lemma MixedCaseHeadersLoad(r: string, g: string, b: string, name: string)
    requires Unpadded(r) && Unpadded(g) && Unpadded(b) && Unpadded(name)
    ensures StripHeaders([r, g, " " + b + " ", name]) == [r, g, b, name]
  {
    var raw := [r, g, " " + b + " ", name];
    var clean := [r, g, b, name];
    forall i | 0 <= i < 4 ensures StripHeaders(raw)[i] == clean[i] {
      if i == 2 {
        StripPadded(" ", b, " ");
      } else {
        StripPadded([], raw[i], []);
        assert [] + raw[i] + [] == raw[i];
      }
    }
  }

  /** Mixed case and stray whitespace: after loading, the headers
      "r", "G", " B ", "Color Name" resolve to all four columns. */
  lemma MixedCaseHeadersResolve()
    ensures CompatibleColumns(StripHeaders(["r", "G", " B ", "Color Name"]))
         == Resolved("r", "G", "B", "Color Name")
  {
    MixedCaseHeadersLoad("r", "G", "B", "Color Name");
    assert " " + "B" + " " == " B ";
    MixedCaseHeadersResolveAsIs();
  }

  /** The message for a missing blue column names exactly B. */
  lemma OnlyBlueMessage()
    ensures MissingMessage([B]) == "Missing columns in colors.csv: B"
  {
  }

  /** In the header row "R", "G", "color_name" red, green and the colour
      name are found at their positions and blue is not found. */
  lemma BluelessFirstMatches(hs: seq<string>)
    requires hs == ["R", "G", "color_name"]
    ensures FirstMatch(hs, R) == Some(0) && FirstMatch(hs, G) == Some(1)
    ensures FirstMatch(hs, B) == None && FirstMatch(hs, ColorName) == Some(2)
  {
    assert Matches(R, hs[0]);
    assert Matches(G, hs[1]) && !Matches(G, hs[0]);
    assert Matches(ColorName, hs[2]) by {
      ColorNameHeadersQualify();
    }
    assert !Matches(ColorName, hs[0]) && !Matches(ColorName, hs[1]) by {
      assert Lower(hs[0]) == "r" && Lower(hs[1]) == "g";
    }
    assert !Matches(B, hs[0]) && !Matches(B, hs[1]) && !Matches(B, hs[2]);
  }

  /** With blue alone not found, the missing list is exactly [B]. */
  lemma BluelessMissing(hs: seq<string>)
    requires FirstMatch(hs, R).Some? && FirstMatch(hs, G).Some?
    requires FirstMatch(hs, B).None? && FirstMatch(hs, ColorName).Some?
    ensures CompatibleColumns(hs) == MissingColumns([B])
  {
    assert MissingFields(hs) == [B] by {
      assert MissingFields(hs) == MissingOf(false, false, true, false);
    }
  }

  /** A header row without any blue column reports exactly B as missing. */
  lemma OnlyBlueMissing()
    ensures CompatibleColumns(["R", "G", "color_name"]) == MissingColumns([B])
  {
    BluelessFirstMatches(["R", "G", "color_name"]);
    BluelessMissing(["R", "G", "color_name"]);
  }

}
