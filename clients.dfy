/** The client record and the two ways the data view reads its fields:
    as text (search and export) and as a sort key (the `a[column]` of the comparator). */
module Clients {
  import Text
  import opened Wrappers

  /** One entry of the loaded data: a number and four strings. */
  datatype Client = Client(id: int, name: string, mobile: string, email: string, city: string)

  /** The record's fields, in the order the data declares them. */
  datatype Field = Id | Name | Mobile | Email | City

  const FIELDS: seq<Field> := [Id, Name, Mobile, Email, City]

  /** The property name of each field, as a column attribute and a CSV header use it. */
  function FieldName(f: Field): string {
    match f
    case Id => "id"
    case Name => "name"
    case Mobile => "mobile"
    case Email => "email"
    case City => "city"
  }

  /** The field a column name designates, if any. */
  function FieldNamed(column: string): (r: Option<Field>)
    ensures r.Some? ==> FieldName(r.value) == column
    ensures forall f :: FieldName(f) == column ==> r == Some(f)
  {
    if column == "id" then Some(Id)
    else if column == "name" then Some(Name)
    else if column == "mobile" then Some(Mobile)
    else if column == "email" then Some(Email)
    else if column == "city" then Some(City)
    else None
  }

  /** A field as a string: the number in decimal, the strings as they are. */
  function FieldText(c: Client, f: Field): string {
    match f
    case Id => Text.DecimalString(c.id)
    case Name => c.name
    case Mobile => c.mobile
    case Email => c.email
    case City => c.city
  }

  /** A value read from a record by a column name: a number, a string, or undefined. */
  datatype Value = Num(n: int) | Str(s: string) | Undefined

  /** `client[column]` for the field the column designates: a number for the id, a string
      for the other fields, undefined when the column designates none. */
  function KeyOf(c: Client, field: Option<Field>): (v: Value)
    ensures v.Undefined? <==> field.None?
    ensures v.Num? <==> field == Some(Id)
    ensures v.Num? ==> v.n == c.id
    ensures v.Str? ==> v.s == FieldText(c, field.value)
  {
    match field
    case None => Undefined
    case Some(Id) => Num(c.id)
    case Some(Name) => Str(c.name)
    case Some(Mobile) => Str(c.mobile)
    case Some(Email) => Str(c.email)
    case Some(City) => Str(c.city)
  }

  /** JavaScript's `<` on two values of one column: numeric on numbers,
      code-unit lexicographic on strings, false when undefined is involved. */
  predicate Less(a: Value, b: Value) {
    match (a, b)
    case (Num(x), Num(y)) => x < y
    case (Str(x), Str(y)) => Text.LexLess(x, y)
    case _ => false
  }

  lemma LessIrreflexive(a: Value)
    ensures !Less(a, a)
  {
    if a.Str? {
      Text.LexIrreflexive(a.s);
    }
  }

  lemma LessTransitive(a: Value, b: Value, c: Value)
    requires Less(a, b) && Less(b, c)
    ensures Less(a, c)
  {
    if a.Str? {
      Text.LexTransitive(a.s, b.s, c.s);
    }
  }

  /** Two keys of one column that are not ordered either way are equal. */
  lemma LessTotal(x: Client, y: Client, field: Option<Field>)
    ensures var a, b := KeyOf(x, field), KeyOf(y, field);
            a == b || Less(a, b) || Less(b, a)
  {
    var a, b := KeyOf(x, field), KeyOf(y, field);
    if a.Str? {
      Text.LexTotal(a.s, b.s);
    }
  }
}
