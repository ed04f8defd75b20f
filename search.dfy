/**
 * The property lookup of app.py: keep the rows of the property table whose
 * rendered text contains the caller's question (case-insensitively), keep
 * the first three of them in table order, and describe them in one line each.
 *
 * The text of a row (`str(row.values)` in the source) is produced by a
 * library formatting routine; the model takes it as a parameter `rowText`
 * about which nothing is assumed.
 */
module PropertySearch {
  import opened Text

  /** One row of the property table: the three columns the reply shows, as
   *  their display text, and the display text of the remaining columns. */
  datatype Property = Property(propertyType: string, location: string, price: string, others: seq<string>)

  const NoMatchReply: string := "Sorry, no properties matched your request."
  const Header: string := "Here are some properties I found:\n"
  /** How many matching rows the reply lists at most (`head(3)`). */
  const MaxListed: nat := 3

  function Min(a: nat, b: nat): nat
  {
    if a <= b then a else b
  }

  /** A row matches when the lower-cased query occurs in its lower-cased text. */
  predicate RowMatches(query: string, row: Property, rowText: Property -> string)
  {
    Contains(Lower(rowText(row)), Lower(query))
  }

  /** The matching rows, in table order. */
  function Matching(rows: seq<Property>, query: string, rowText: Property -> string): (r: seq<Property>)
    ensures |r| <= |rows|
    ensures forall j :: 0 <= j < |r| ==> RowMatches(query, r[j], rowText)
  {
    if |rows| == 0 then []
    else
      var last := rows[|rows| - 1];
      Matching(rows[..|rows| - 1], query, rowText)
      + (if RowMatches(query, last, rowText) then [last] else [])
  }

  /** The table positions of the matching rows: an independent description of the filter. */
  ghost function Positions(rows: seq<Property>, query: string, rowText: Property -> string): seq<nat>
  {
    if |rows| == 0 then []
    else
      Positions(rows[..|rows| - 1], query, rowText)
      + (if RowMatches(query, rows[|rows| - 1], rowText) then [|rows| - 1] else [])
  }

  /** The rows the reply lists: the first at most three matching rows. */
  function Listed(rows: seq<Property>, query: string, rowText: Property -> string): (r: seq<Property>)
    ensures |r| == Min(MaxListed, |Matching(rows, query, rowText)|) <= MaxListed
    ensures r <= Matching(rows, query, rowText)
  {
    var matched := Matching(rows, query, rowText);
    matched[..Min(MaxListed, |matched|)]
  }

  /** The reply line for one row. */
  function FormatLine(p: Property): string
  {
    "- " + p.propertyType + " in " + p.location + " for AED " + p.price + "\n"
  }

  /** A reply line is a list item that names the type first, the price last,
   *  and ends the line. */
  lemma FormatLineShape(p: Property)
    ensures var r := FormatLine(p);
      && |r| == 16 + |p.propertyType| + |p.location| + |p.price|
      && r[..2] == "- " && r[2..2 + |p.propertyType|] == p.propertyType
      && r[|r| - 1 - |p.price|..|r| - 1] == p.price && r[|r| - 1] == '\n'
  {
    var head := "- " + p.propertyType + " in " + p.location + " for AED ";
    assert FormatLine(p) == head + p.price + "\n";
    assert head[..2] == "- ";
  }

  /** The reply lines for several rows, in order. */
  function FormatLines(ps: seq<Property>): (r: string)
    ensures |ps| == 0 <==> r == ""
  {
    if |ps| == 0 then "" else FormatLines(ps[..|ps| - 1]) + FormatLine(ps[|ps| - 1])
  }

  /** The lines of several rows are the lines of the first ones, then those of the rest. */
  lemma {:induction false} FormatLinesAppend(xs: seq<Property>, ys: seq<Property>)
    ensures FormatLines(xs + ys) == FormatLines(xs) + FormatLines(ys)
  {
    if |ys| > 0 {
      FormatLinesAppend(xs, ys[..|ys| - 1]);
      assert (xs + ys)[..|xs + ys| - 1] == xs + ys[..|ys| - 1];
    } else {
      assert xs + ys == xs;
    }
  }

  /** What `search_properties` returns. */
  function SearchResult(rows: seq<Property>, query: string, rowText: Property -> string): (r: string)
    ensures |Matching(rows, query, rowText)| == 0 ==> r == NoMatchReply
    ensures |Matching(rows, query, rowText)| > 0 ==>
              |r| > |Header| && r[..|Header|] == Header && r[|Header|..] == FormatLines(Listed(rows, query, rowText))
  {
    if |Matching(rows, query, rowText)| == 0 then NoMatchReply
    else Header + FormatLines(Listed(rows, query, rowText))
  }

  /** `search_properties`: filter the table, then build the reply line by line. */
  method SearchProperties(rows: seq<Property>, query: string, rowText: Property -> string)
    returns (response: string)
    ensures response == SearchResult(rows, query, rowText)
  {
    var matched := Matching(rows, query, rowText);
    if |matched| == 0 {
      return NoMatchReply;
    }
    var top := matched[..Min(MaxListed, |matched|)];
    response := AppendLines(Header, top);
  }

  /** The `response +=` loop: one reply line per row, in order, after `start`. */
  method AppendLines(start: string, top: seq<Property>) returns (response: string)
    ensures response == start + FormatLines(top)
  {
    response := start;
    var i := 0;
    while i < |top|
      invariant 0 <= i <= |top|
      invariant response == start + FormatLines(top[..i])
    {
      assert top[..i + 1][..i] == top[..i];
      response := response + FormatLine(top[i]);
      i := i + 1;
    }
    assert top[..|top|] == top;
  }

  /** The filter is a stable selection: the matching rows are exactly the rows
   *  at the matching positions, and those positions increase. */
  lemma MatchingIsSelection(rows: seq<Property>, query: string, rowText: Property -> string)
    ensures var pos := Positions(rows, query, rowText);
      && |pos| == |Matching(rows, query, rowText)|
      && (forall j :: 0 <= j < |pos| ==> pos[j] < |rows| && Matching(rows, query, rowText)[j] == rows[pos[j]])
      && (forall j, k :: 0 <= j < k < |pos| ==> pos[j] < pos[k])
      && (forall i :: 0 <= i < |rows| ==> (i in pos <==> RowMatches(query, rows[i], rowText)))
  {
    PositionsPickRows(rows, query, rowText);
    PositionsIncrease(rows, query, rowText);
    PositionsAreMatches(rows, query, rowText);
  }

  /** The matching rows are the rows at the listed positions. */
  lemma {:induction false} PositionsPickRows(rows: seq<Property>, query: string, rowText: Property -> string)
    ensures var pos := Positions(rows, query, rowText);
      && |pos| == |Matching(rows, query, rowText)|
      && (forall j :: 0 <= j < |pos| ==> pos[j] < |rows| && Matching(rows, query, rowText)[j] == rows[pos[j]])
  {
    if |rows| > 0 {
      var init := rows[..|rows| - 1];
      var last := rows[|rows| - 1];
      PositionsPickRows(init, query, rowText);
      var pos0 := Positions(init, query, rowText);
      var m0 := Matching(init, query, rowText);
      assert forall j :: 0 <= j < |pos0| ==> rows[pos0[j]] == init[pos0[j]];
      if RowMatches(query, last, rowText) {
        assert Positions(rows, query, rowText) == pos0 + [|rows| - 1];
        assert Matching(rows, query, rowText) == m0 + [last];
      } else {
        assert Positions(rows, query, rowText) == pos0;
        assert Matching(rows, query, rowText) == m0;
      }
    }
  }

  /** The listed positions increase: the filter keeps table order. */
  lemma {:induction false} PositionsIncrease(rows: seq<Property>, query: string, rowText: Property -> string)
    ensures forall j, k :: 0 <= j < k < |Positions(rows, query, rowText)| ==>
              Positions(rows, query, rowText)[j] < Positions(rows, query, rowText)[k]
  {
    if |rows| > 0 {
      var init := rows[..|rows| - 1];
      PositionsIncrease(init, query, rowText);
      PositionsBelow(init, query, rowText);
      var pos0 := Positions(init, query, rowText);
      assert forall j :: 0 <= j < |pos0| ==> pos0[j] in pos0;
      if RowMatches(query, rows[|rows| - 1], rowText) {
        assert Positions(rows, query, rowText) == pos0 + [|rows| - 1];
      } else {
        assert Positions(rows, query, rowText) == pos0;
      }
    }
  }

  /** A position is listed exactly when its row matches. */
  lemma {:induction false} PositionsAreMatches(rows: seq<Property>, query: string, rowText: Property -> string)
    ensures forall i :: 0 <= i < |rows| ==> (i in Positions(rows, query, rowText) <==> RowMatches(query, rows[i], rowText))
  {
    if |rows| > 0 {
      var init := rows[..|rows| - 1];
      PositionsAreMatches(init, query, rowText);
      var pos0 := Positions(init, query, rowText);
      assert forall i :: 0 <= i < |init| ==> rows[i] == init[i];
      assert forall i :: i in pos0 ==> i < |init| by {
        PositionsBelow(init, query, rowText);
      }
    }
  }

  /** Every listed position is a position of the table. */
  lemma {:induction false} PositionsBelow(rows: seq<Property>, query: string, rowText: Property -> string)
    ensures forall i :: i in Positions(rows, query, rowText) ==> i < |rows|
  {
    if |rows| > 0 {
      PositionsBelow(rows[..|rows| - 1], query, rowText);
    }
  }

  /** Every row the filter keeps is a row of the table. */
  lemma MatchingFromTable(rows: seq<Property>, query: string, rowText: Property -> string)
    ensures forall j :: 0 <= j < |Matching(rows, query, rowText)| ==> Matching(rows, query, rowText)[j] in rows
  {
    PositionsPickRows(rows, query, rowText);
  }

  /** The reply lists the first min(3, n) of the n matching rows, in table order. */
  lemma {:induction false} ListsFirstMatches(rows: seq<Property>, query: string, rowText: Property -> string)
    ensures var pos := Positions(rows, query, rowText);
      && |Listed(rows, query, rowText)| == Min(MaxListed, |pos|)
      && (forall j :: 0 <= j < |pos| ==> pos[j] < |rows|)
      && forall j :: 0 <= j < |Listed(rows, query, rowText)| ==> Listed(rows, query, rowText)[j] == rows[pos[j]]
  {
    MatchingIsSelection(rows, query, rowText);
  }

  /** The fixed apology is returned exactly when no row matches. */
  lemma NoMatchIff(rows: seq<Property>, query: string, rowText: Property -> string)
    ensures SearchResult(rows, query, rowText) == NoMatchReply
        <==> forall i :: 0 <= i < |rows| ==> !RowMatches(query, rows[i], rowText)
  {
    MatchingIsSelection(rows, query, rowText);
    var pos := Positions(rows, query, rowText);
    if |pos| > 0 {
      assert pos[0] in pos;
      assert SearchResult(rows, query, rowText)[0] == 'H' != NoMatchReply[0];
    }
  }

  /** The fields a reply line shows hold no line break. */
  predicate OneLine(p: Property)
  {
    '\n' !in p.propertyType && '\n' !in p.location && '\n' !in p.price
  }

  /** A reply line ends with its only newline. */
  lemma FormatLineCount(p: Property)
    requires OneLine(p)
    ensures Count(FormatLine(p), '\n') == 1
  {
    var body := "- " + p.propertyType + " in " + p.location + " for AED " + p.price;
    assert '\n' !in "- " && '\n' !in " in " && '\n' !in " for AED ";
    assert forall k :: 0 <= k < |body| ==> body[k] != '\n';
    OneLineBreak(body);
    assert FormatLine(p) == body + "\n";
  }

  /** Each reply line holds one newline, when the shown fields hold none. */
  lemma {:induction false} FormatLinesCount(ps: seq<Property>)
    requires forall k :: 0 <= k < |ps| ==> OneLine(ps[k])
    ensures Count(FormatLines(ps), '\n') == |ps|
  {
    if |ps| > 0 {
      FormatLinesCount(ps[..|ps| - 1]);
      FormatLineCount(ps[|ps| - 1]);
      CountConcat(FormatLines(ps[..|ps| - 1]), FormatLine(ps[|ps| - 1]), '\n');
    }
  }

  /** The header is one line. */
  lemma HeaderCount()
    ensures Count(Header, '\n') == 1
  {
    assert Header == "Here are some properties I found:" + "\n";
    OneLineBreak("Here are some properties I found:");
  }

  /** Rows whose shown fields are single lines give single reply lines. */
  lemma ListedOneLine(rows: seq<Property>, query: string, rowText: Property -> string)
    requires forall k :: 0 <= k < |rows| ==> OneLine(rows[k])
    ensures forall j :: 0 <= j < |Listed(rows, query, rowText)| ==> OneLine(Listed(rows, query, rowText)[j])
  {
    ListsFirstMatches(rows, query, rowText);
  }

  /** Read as lines, a reply that lists properties is the header line plus one
   *  line per listed row, so it never describes more than three of them. */
  lemma ReplyLineCount(rows: seq<Property>, query: string, rowText: Property -> string)
    requires forall k :: 0 <= k < |rows| ==> OneLine(rows[k])
    requires |Matching(rows, query, rowText)| > 0
    ensures Count(SearchResult(rows, query, rowText), '\n') == |Listed(rows, query, rowText)| + 1 <= MaxListed + 1
  {
    var listed := Listed(rows, query, rowText);
    ListedOneLine(rows, query, rowText);
    FormatLinesCount(listed);
    HeaderCount();
    CountConcat(Header, FormatLines(listed), '\n');
  }

  /** A query that is empty matches every row, so the reply lists the first three rows. */
  lemma {:induction false} EmptyQueryListsFirstRows(rows: seq<Property>, rowText: Property -> string)
    ensures Matching(rows, "", rowText) == rows
    ensures Listed(rows, "", rowText) == rows[..Min(MaxListed, |rows|)]
  {
    if |rows| > 0 {
      EmptyQueryListsFirstRows(rows[..|rows| - 1], rowText);
      assert OccursAt(Lower(rowText(rows[|rows| - 1])), Lower(""), 0);
      assert rows[..|rows| - 1] + [rows[|rows| - 1]] == rows;
    }
  }

  /** A query found in a row's text, up to case, makes the row match. */
  lemma MatchesIgnoringCase(query: string, row: Property, rowText: Property -> string, shown: string)
    requires Contains(rowText(row), shown)
    requires Lower(shown) == Lower(query)
    ensures RowMatches(query, row, rowText)
  {
    var i: nat :| i <= |rowText(row)| && OccursAt(rowText(row), shown, i);
    LowerKeepsOccurrence(rowText(row), shown, i);
  }

  /** The single-villa example: querying "villa" against a table with one villa
   *  in Dubai Marina, whose rendered text shows its type. */
  lemma VillaExample(rowText: Property -> string)
    requires Contains(rowText(Property("Villa", "Dubai Marina", "2500000", [])), "Villa")
    ensures SearchResult([Property("Villa", "Dubai Marina", "2500000", [])], "villa", rowText)
         == Header + "- Villa in Dubai Marina for AED 2500000\n"
  {
    var villa := Property("Villa", "Dubai Marina", "2500000", []);
    assert Lower("Villa") == "villa" == Lower("villa");
    MatchesIgnoringCase("villa", villa, rowText, "Villa");
    assert [villa][..0] == [];
    assert Matching([villa], "villa", rowText) == [villa];
    assert Listed([villa], "villa", rowText) == [villa];
    assert FormatLines([villa]) == FormatLine(villa);
    VillaLine();
  }

  /** The reply line of the villa in the example. */
  lemma VillaLine()
    ensures FormatLine(Property("Villa", "Dubai Marina", "2500000", [])) == "- Villa in Dubai Marina for AED 2500000\n"
  {
    assert "- " + "Villa" == "- Villa";
    assert "- Villa" + " in " == "- Villa in ";
    assert "- Villa in " + "Dubai Marina" == "- Villa in Dubai Marina";
    assert "- Villa in Dubai Marina" + " for AED " == "- Villa in Dubai Marina for AED ";
    assert "- Villa in Dubai Marina for AED " + "2500000" == "- Villa in Dubai Marina for AED 2500000";
  }
}
