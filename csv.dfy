/** `convertToCsv`: a header line of property names, then one line per record with every
    value wrapped in double quotes, nothing escaped. */
module Csv {
  import opened Wrappers
  import opened Clients
  import Delimited

  /** `Object.keys(data[0])` on an empty array: reading a property of undefined throws. */
  datatype CsvError = NoFirstRecord

  /** The property names of a record, in the order the data declares them. */
  function Names(): seq<string> {
    [FieldName(Id), FieldName(Name), FieldName(Mobile), FieldName(Email), FieldName(City)]
  }

  /** The values of a record, in the same order, as a template literal renders them. */
  function Values(c: Client): (vs: seq<string>)
    ensures |vs| == 5
  {
    [FieldText(c, Id), FieldText(c, Name), FieldText(c, Mobile), FieldText(c, Email), FieldText(c, City)]
  }

  /** `"${value}"`: the text between double quotes, as it is. */
  function Quote(v: string): string {
    "\"" + v + "\""
  }

  function Quoted(vs: seq<string>): (r: seq<string>)
    ensures |r| == |vs|
    ensures forall i :: 0 <= i < |vs| ==> r[i] == Quote(vs[i])
  {
    seq(|vs|, i requires 0 <= i < |vs| => Quote(vs[i]))
  }

  /** The header line. */
  function Header(): string {
    Delimited.Join(Names(), ',')
  }

  /** One record's line. */
  function Row(c: Client): string {
    Delimited.Join(Quoted(Values(c)), ',')
  }

  function Rows(data: seq<Client>): (r: seq<string>)
    ensures |r| == |data|
    ensures forall i :: 0 <= i < |data| ==> r[i] == Row(data[i])
  {
    seq(|data|, i requires 0 <= i < |data| => Row(data[i]))
  }

  /** The CSV text, or the error of asking for the keys of a missing first record. */
  function ConvertToCsv(data: seq<Client>): (r: Result<string, CsvError>)
    ensures r.Err? <==> |data| == 0
  {
    if |data| == 0 then Err(NoFirstRecord)
    else Ok(Delimited.Join([Header()] + Rows(data), '\n'))
  }

  /** The header reads `id,name,mobile,email,city`. */
  lemma HeaderText()
    ensures Header() == "id,name,mobile,email,city"
  {
    var names := Names();
    var tail3 := Delimited.Join(names[3..], ',');
    assert names == ["id", "name", "mobile", "email", "city"];
    assert names[3..][1..] == ["city"];
    assert Delimited.Join(["city"], ',') == "city";
    assert tail3 == "email" + [','] + "city";
    var tail2 := Delimited.Join(names[2..], ',');
    assert names[2..][1..] == names[3..];
    assert tail2 == "mobile" + [','] + tail3;
    var tail1 := Delimited.Join(names[1..], ',');
    assert names[1..][1..] == names[2..];
    assert tail1 == "name" + [','] + tail2;
    assert Header() == "id" + [','] + tail1;
  }

  /** Quoting adds no character other than the quote. */
  lemma {:induction false} QuotedCount(vs: seq<string>, ch: char)
    requires ch != '"'
    ensures Delimited.CountAll(Quoted(vs), ch) == Delimited.CountAll(vs, ch)
    decreases |vs|
  {
    if |vs| > 0 {
      QuotedCount(vs[1..], ch);
      assert Quoted(vs)[1..] == Quoted(vs[1..]);
      Delimited.CountConcat("\"" + vs[0], "\"", ch);
      Delimited.CountConcat("\"", vs[0], ch);
    }
  }

  predicate NoNewline(c: Client) {
    forall i :: 0 <= i < 5 ==> '\n' !in Values(c)[i]
  }

  lemma RowNoNewline(c: Client)
    requires NoNewline(c)
    ensures '\n' !in Row(c)
  {
    Delimited.CountAllZero(Values(c), '\n');
    QuotedCount(Values(c), '\n');
    Delimited.CountJoinOther(Quoted(Values(c)), ',', '\n');
    Delimited.CountZero(Row(c), '\n');
  }

  lemma HeaderNoNewline()
    ensures '\n' !in Header()
  {
    HeaderText();
  }

  /** When no value contains a line break, splitting the output at line breaks gives back
      the header followed by one line per record: `1 + |data|` lines. */
  lemma CsvLines(data: seq<Client>)
    requires |data| > 0
    requires forall c :: c in data ==> NoNewline(c)
    ensures var lines := Delimited.Split(ConvertToCsv(data).value, '\n');
            && |lines| == 1 + |data|
            && lines[0] == "id,name,mobile,email,city"
            && forall i :: 0 <= i < |data| ==> lines[i + 1] == Row(data[i])
  {
    var parts := [Header()] + Rows(data);
    forall i | 0 <= i < |parts| ensures '\n' !in parts[i] {
      if i == 0 {
        HeaderNoNewline();
      } else {
        assert data[i - 1] in data;
        RowNoNewline(data[i - 1]);
      }
    }
    Delimited.SplitJoin(parts, '\n');
    HeaderText();
  }

  /** The number of commas inside a record's values. */
  function CommasIn(c: Client): nat {
    Delimited.CountAll(Values(c), ',')
  }

  /** Commas inside a quoted value are not escaped: splitting a record's line at commas
      gives five pieces plus one for every comma in its values, and it gives back the five
      quoted values exactly when none of them holds a comma. */
  lemma RowSplit(c: Client)
    ensures |Delimited.Split(Row(c), ',')| == 5 + CommasIn(c)
    ensures CommasIn(c) == 0 ==> Delimited.Split(Row(c), ',') == Quoted(Values(c))
  {
    var cells := Quoted(Values(c));
    Delimited.SplitLength(Row(c), ',');
    Delimited.CountJoin(cells, ',');
    QuotedCount(Values(c), ',');
    if CommasIn(c) == 0 {
      Delimited.CountAllZero(cells, ',');
      Delimited.SplitJoin(cells, ',');
    }
  }

  /** A name holding a comma, as in `"1","A,B",...`, splits into six pieces. */
  lemma CommaInName()
    ensures |Delimited.Split(Row(Client(1, "A,B", "m", "e", "x")), ',')| == 6
  {
    var c := Client(1, "A,B", "m", "e", "x");
    assert Values(c) == ["1", "A,B", "m", "e", "x"];
    assert Delimited.Count("A,B", ',') == 1;
    assert Delimited.CountAll(Values(c), ',') == 1;
    RowSplit(c);
  }
}
