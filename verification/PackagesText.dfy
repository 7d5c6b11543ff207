/**
 Dependency fields of a PACKAGES record: rendering a list of requirements, and parsing
 the field back entry by entry.
 */
module PackagesText {
  import opened Prelude
  import opened Text
  import opened Versions
  import opened Domain

  datatype PackagesError = DuplicateDependency(name: string) | UnsupportedConstraint

  datatype EntryError = EmptyEntry | InvalidPackageName | InvalidConstraintSyntax | MissingConstraintVersion
    | InvalidVersion(error: VersionError)

  // A requirement as entries can say it.
  datatype Entry = Entry(name: string, constraint: VersionConstraint)

  // -------------------------------------------------------------------- rendering

  function Sign(op: RelationOp): string {
    match op
    case Lt => "<"
    case Le => "<="
    case Eq => "=="
    case Ne => "!="
    case Ge => ">="
    case Gt => ">"
  }

  // `render_dependency` accepts no source, no more than one clause and no "not equal".
  predicate Renderable(p: PackageRequirement) {
    && p.source.Any? && |p.constraint.clauses| <= 1
    && (forall i | 0 <= i < |p.constraint.clauses| :: p.constraint.clauses[i].op != Ne)
  }

  function EntryText(e: Entry): string
    requires |e.constraint.clauses| <= 1
  {
    if e.constraint.clauses == [] then e.name
    else e.name + " (" + Sign(e.constraint.clauses[0].op) + " " + e.constraint.clauses[0].version.raw + ")"
  }

  function RenderEntry(p: PackageRequirement): Result<string, PackagesError> {
    if !Renderable(p) then Err(UnsupportedConstraint) else Ok(EntryText(Entry(p.name, p.constraint)))
  }

  // Rendered entries in declaration order; names may occur once.
  function RenderAll(seen: set<string>, ps: seq<PackageRequirement>): Result<seq<string>, PackagesError>
    decreases |ps|
  {
    if ps == [] then Ok([])
    else if ps[0].name in seen then Err(DuplicateDependency(ps[0].name))
    else
      var first :- RenderEntry(ps[0]);
      var rest :- RenderAll(seen + {ps[0].name}, ps[1..]);
      Ok([first] + rest)
  }

  // The value of one dependency field.
  function RenderField(ps: seq<PackageRequirement>): Result<string, PackagesError> {
    var texts :- RenderAll({}, ps);
    Ok(Join(SortBy(texts, CompareText), ", "))
  }

  function Ahead(front: seq<string>, r: Result<seq<string>, PackagesError>): Result<seq<string>, PackagesError> {
    match r
    case Ok(rest) => Ok(front + rest)
    case Err(error) => Err(error)
  }

  // The loop of `write_record` over the dependencies of one field.
  method WriteField(ps: seq<PackageRequirement>) returns (r: Result<string, PackagesError>)
    ensures r == RenderField(ps)
  {
    var seen: set<string> := {};
    var rendered: seq<string> := [];
    AheadNothing(RenderAll({}, ps));
    assert ps[0..] == ps;
    for i := 0 to |ps|
      invariant RenderAll({}, ps) == Ahead(rendered, RenderAll(seen, ps[i..]))
    {
      assert ps[i..][1..] == ps[i + 1..];
      if ps[i].name in seen {
        return Err(DuplicateDependency(ps[i].name));
      }
      var entry := RenderEntry(ps[i]);
      if entry.Err? {
        return Err(entry.error);
      }
      AheadOne(rendered, entry.value, RenderAll(seen + {ps[i].name}, ps[i + 1..]));
      seen := seen + {ps[i].name};
      rendered := rendered + [entry.value];
    }
    assert rendered + [] == rendered;
    rendered := SortBy(rendered, CompareText);
    return Ok(Join(rendered, ", "));
  }

  lemma AheadNothing(r: Result<seq<string>, PackagesError>)
    ensures Ahead([], r) == r
  {
    if r.Ok? {
      assert [] + r.value == r.value;
    }
  }

  lemma AheadOne(front: seq<string>, text: string, r: Result<seq<string>, PackagesError>)
    ensures Ahead(front, Ahead([text], r)) == Ahead(front + [text], r)
  {
    if r.Ok? {
      assert front + ([text] + r.value) == (front + [text]) + r.value;
    }
  }

  // ---------------------------------------------------------------------- parsing

  // The sign an expression starts with.
  function TakeSign(s: string): Option<(RelationOp, string)> {
    if StartsWith(s, ">=") then Some((Ge, s[2..]))
    else if StartsWith(s, "<=") then Some((Le, s[2..]))
    else if StartsWith(s, "==") then Some((Eq, s[2..]))
    else if StartsWith(s, "!=") then Some((Ne, s[2..]))
    else if StartsWith(s, ">") then Some((Gt, s[1..]))
    else if StartsWith(s, "<") then Some((Lt, s[1..]))
    else None
  }

  // `parse_constraint`.
  function ParseExpression(expression: string): Result<VersionConstraint, EntryError> {
    match TakeSign(expression)
    case None => Err(InvalidConstraintSyntax)
    case Some((op, rest)) =>
      var text := Strip(rest);
      if text == "" then Err(MissingConstraintVersion)
      else match ParseSpec(text, 2)
        case Err(error) => Err(InvalidVersion(error))
        case Ok(version) => Ok(VersionConstraint([VersionClause(op, version)]))
  }

  // `parse_dependency_entry`.
  function ParseEntry(text: string): Result<Entry, EntryError> {
    ParseTrimmed(Strip(text))
  }

  function ParseTrimmed(input: string): Result<Entry, EntryError> {
    if input == "" then Err(EmptyEntry)
    else match FirstOf(input, '(')
      case None =>
        if ')' in input then Err(InvalidConstraintSyntax)
        else if !ValidPackageName(input) then Err(InvalidPackageName)
        else Ok(Entry(input, VersionConstraint([])))
      case Some(open) =>
        if input[|input| - 1] != ')' then Err(InvalidConstraintSyntax)
        else
          assert open < |input| - 1;
          var expression := input[open + 1..|input| - 1];
          if '(' in expression || ')' in expression then Err(InvalidConstraintSyntax)
          else
            var constraint :- ParseExpression(expression);
            var name := Strip(input[..open]);
            if !ValidPackageName(name) then Err(InvalidPackageName)
            else Ok(Entry(name, constraint))
  }

  // `str::split_terminator`: a split that drops an empty last part.
  function SplitTerminator(s: string): seq<string> {
    var parts := SplitOn(s, IsComma);
    if parts[|parts| - 1] == "" then parts[..|parts| - 1] else parts
  }

  function ParseAll(texts: seq<string>): Result<seq<Entry>, EntryError> {
    if texts == [] then Ok([])
    else
      var first :- ParseEntry(texts[0]);
      var rest :- ParseAll(texts[1..]);
      Ok([first] + rest)
  }

  function ParseField(value: string): Result<seq<Entry>, EntryError> {
    ParseAll(SplitTerminator(value))
  }

  // The loop of `parse_description_fields` over one field.
  method ReadField(value: string) returns (r: Result<seq<Entry>, EntryError>)
    ensures r == ParseField(value)
  {
    var texts := SplitTerminator(value);
    var entries: seq<Entry> := [];
    assert texts[0..] == texts;
    ParsedAhead([], ParseAll(texts));
    for i := 0 to |texts|
      invariant ParseAll(texts) == Joined(entries, ParseAll(texts[i..]))
    {
      assert texts[i..][1..] == texts[i + 1..];
      var entry := ParseEntry(texts[i]);
      if entry.Err? {
        return Err(entry.error);
      }
      JoinedOne(entries, entry.value, ParseAll(texts[i + 1..]));
      entries := entries + [entry.value];
    }
    assert entries + [] == entries;
    return Ok(entries);
  }

  function Joined(front: seq<Entry>, r: Result<seq<Entry>, EntryError>): Result<seq<Entry>, EntryError> {
    match r
    case Ok(rest) => Ok(front + rest)
    case Err(error) => Err(error)
  }

  lemma ParsedAhead(front: seq<Entry>, r: Result<seq<Entry>, EntryError>)
    ensures front == [] ==> Joined(front, r) == r
  {
    if r.Ok? && front == [] {
      assert [] + r.value == r.value;
    }
  }

  lemma JoinedOne(front: seq<Entry>, entry: Entry, r: Result<seq<Entry>, EntryError>)
    ensures Joined(front, Joined([entry], r)) == Joined(front + [entry], r)
  {
    if r.Ok? {
      assert front + ([entry] + r.value) == (front + [entry]) + r.value;
    }
  }

  // ------------------------------------------------------------ one entry back

  // Versions as the parser makes them, retaining their spelling.
  ghost predicate Proper(e: Entry) {
    && ValidPackageName(e.name) && |e.constraint.clauses| <= 1
    && (forall i | 0 <= i < |e.constraint.clauses| ::
      e.constraint.clauses[i].op != Ne && e.constraint.clauses[i].version.Valid())
  }

  // Every version has two components or more.
  ghost predicate LongVersions(e: Entry) {
    forall i | 0 <= i < |e.constraint.clauses| ::
      e.constraint.clauses[i].version.components.Valid() && |e.constraint.clauses[i].version.All()| >= 2
  }

  lemma NameShape(name: string)
    requires ValidPackageName(name)
    ensures name != "" && forall c | c in name :: !IsSpace(c) && !IsComma(c) && c != '(' && c != ')'
  {
  }

  lemma VersionShape(v: RPackageVersion)
    requires v.Valid()
    ensures v.raw != "" && forall c | c in v.raw :: !IsSpace(c) && !IsComma(c) && c != '(' && c != ')' && c != '='
  {
    ValidSpelling(v.raw, 1);
  }

  // The number of components decides whether a spelling is long enough.
  lemma MinimumDecides(v: RPackageVersion)
    requires v.Valid()
    ensures ParseSpec(v.raw, 2).Ok? <==> |v.All()| >= 2
    ensures ParseSpec(v.raw, 2).Ok? ==> ParseSpec(v.raw, 2).value == v
  {
  }

  lemma SignTaken(op: RelationOp, rest: string)
    requires rest != "" && rest[0] == ' '
    ensures TakeSign(Sign(op) + rest) == Some((op, rest))
  {
    var s := Sign(op) + rest;
    assert s[|Sign(op)|..] == rest && s[|Sign(op)|] == ' ';
    assert |Sign(op)| == 1 ==> s[..2] == [s[0], ' '];
  }

  lemma ExpressionBack(op: RelationOp, v: RPackageVersion)
    requires v.Valid()
    ensures ParseExpression(Sign(op) + " " + v.raw).Ok? <==> |v.All()| >= 2
    ensures |v.All()| >= 2 ==> ParseExpression(Sign(op) + " " + v.raw) == Ok(VersionConstraint([VersionClause(op, v)]))
  {
    VersionShape(v);
    assert v.raw[0] in v.raw && v.raw[|v.raw| - 1] in v.raw;
    StripSpaced(v.raw);
    assert Sign(op) + " " + v.raw == Sign(op) + (" " + v.raw);
    SignTaken(op, " " + v.raw);
    MinimumDecides(v);
  }

  // An entry parses back exactly when its version is long enough.
  lemma EntryBack(e: Entry)
    requires Proper(e)
    ensures ParseEntry(EntryText(e)).Ok? <==> LongVersions(e)
    ensures LongVersions(e) ==> ParseEntry(EntryText(e)) == Ok(e)
  {
    NameShape(e.name);
    assert e.name[0] in e.name && e.name[|e.name| - 1] in e.name;
    StripSpaced(e.name);
    if e.constraint.clauses == [] {
      FirstAbsent(e.name, '(');
      assert e.constraint == VersionConstraint([]);
    } else {
      ConstrainedBack(e, e.constraint.clauses[0].op, e.constraint.clauses[0].version);
    }
  }

  lemma ConstrainedBack(e: Entry, op: RelationOp, v: RPackageVersion)
    requires Proper(e) && e.constraint.clauses == [VersionClause(op, v)]
    ensures ParseEntry(EntryText(e)).Ok? <==> |v.All()| >= 2
    ensures |v.All()| >= 2 ==> ParseEntry(EntryText(e)) == Ok(e)
  {
    hide Sign, ParseEntry;
    var expression := Sign(op) + " " + v.raw;
    assert v.Valid() by {
      assert e.constraint.clauses[0].version.Valid();
    }
    ExpressionBack(op, v);
    ExpressionChars(op, v);
    assert EntryText(e) == e.name + " (" + expression + ")";
    ConstrainedEntry(e.name, expression, EntryText(e));
    assert e == Entry(e.name, VersionConstraint([VersionClause(op, v)]));
  }

  // A name and a parenthesised expression are taken apart again.
  lemma ConstrainedEntry(name: string, expression: string, text: string)
    requires ValidPackageName(name) && '(' !in expression && ')' !in expression
    requires text == name + " (" + expression + ")"
    ensures ParseEntry(text) == match ParseExpression(expression)
      case Err(error) => Err(error)
      case Ok(constraint) => Ok(Entry(name, constraint))
  {
    var front := name + " ";
    NameShape(name);
    assert text == front + ['('] + (expression + ")");
    assert text[0] == name[0] && name[0] in name && text[|text| - 1] == ')';
    StripSpaced(text);
    FirstAt(front, '(', expression + ")");
    assert text[|front| + 1..|text| - 1] == expression && text[..|front|] == front;
    StripTrailing(name);
  }

  lemma ExpressionChars(op: RelationOp, v: RPackageVersion)
    requires v.Valid()
    ensures '(' !in Sign(op) + " " + v.raw && ')' !in Sign(op) + " " + v.raw && ',' !in Sign(op) + " " + v.raw
  {
    VersionShape(v);
  }

  lemma StripTrailing(name: string)
    requires ValidPackageName(name)
    ensures Strip(name + " ") == name
  {
    NameShape(name);
    assert name[0] in name && name[|name| - 1] in name;
    var s := name + " ";
    assert s[0] == name[0] && StripStart(s) == s;
    assert s[|s| - 1] == ' ' && s[..|s| - 1] == name;
    assert StripEnd(s) == StripEnd(name) == name;
  }

  // ------------------------------------------------------------ the whole field back

  function Entries(ps: seq<PackageRequirement>): (es: seq<Entry>)
    ensures |es| == |ps| && forall i | 0 <= i < |ps| :: es[i] == Entry(ps[i].name, ps[i].constraint)
  {
    seq(|ps|, i requires 0 <= i < |ps| => Entry(ps[i].name, ps[i].constraint))
  }

  // Ordering entries by how they are rendered.
  function RenderedText(e: Entry): string {
    if |e.constraint.clauses| <= 1 then EntryText(e) else ""
  }

  function CompareEntries(a: Entry, b: Entry): Order {
    CompareText(RenderedText(a), RenderedText(b))
  }

  function Texts(es: seq<Entry>): (texts: seq<string>)
    ensures |texts| == |es| && forall i | 0 <= i < |es| :: texts[i] == RenderedText(es[i])
  {
    seq(|es|, i requires 0 <= i < |es| => RenderedText(es[i]))
  }

  lemma {:induction false} AllRenderable(seen: set<string>, ps: seq<PackageRequirement>)
    requires RenderAll(seen, ps).Ok?
    ensures forall p | p in ps :: Renderable(p)
    decreases |ps|
  {
    if ps != [] {
      AllRenderable(seen + {ps[0].name}, ps[1..]);
      assert ps == [ps[0]] + ps[1..];
    }
  }

  lemma {:induction false} RenderedTexts(seen: set<string>, ps: seq<PackageRequirement>)
    requires RenderAll(seen, ps).Ok?
    ensures RenderAll(seen, ps).value == Texts(Entries(ps))
    decreases |ps|
  {
    if ps != [] {
      RenderedTexts(seen + {ps[0].name}, ps[1..]);
      FirstText(ps);
    }
  }

  lemma FirstText(ps: seq<PackageRequirement>)
    requires ps != []
    ensures Texts(Entries(ps)) == [RenderedText(Entry(ps[0].name, ps[0].constraint))] + Texts(Entries(ps[1..]))
  {
  }

  lemma TextsCons(e: Entry, es: seq<Entry>)
    ensures Texts([e] + es) == [RenderedText(e)] + Texts(es)
  {
  }

  lemma {:induction false} InsertTexts(e: Entry, es: seq<Entry>)
    ensures Texts(Insert(e, es, CompareEntries)) == Insert(RenderedText(e), Texts(es), CompareText)
  {
    if es == [] || CompareEntries(e, es[0]) != Greater {
      TextsCons(e, es);
    } else {
      InsertTexts(e, es[1..]);
      assert Texts(es)[1..] == Texts(es[1..]);
      TextsCons(es[0], Insert(e, es[1..], CompareEntries));
    }
  }

  // Sorting rendered entries renders the sorted entries.
  lemma {:induction false} SortTexts(es: seq<Entry>)
    ensures Texts(SortBy(es, CompareEntries)) == SortBy(Texts(es), CompareText)
  {
    if es != [] {
      SortTexts(es[1..]);
      assert Texts(es)[1..] == Texts(es[1..]);
      InsertTexts(es[0], SortBy(es[1..], CompareEntries));
    }
  }

  function Spaced(texts: seq<string>): (spaced: seq<string>)
    ensures |spaced| == |texts|
    ensures forall i | 0 <= i < |texts| :: spaced[i] == if i == 0 then texts[0] else " " + texts[i]
  {
    seq(|texts|, i requires 0 <= i < |texts| => if i == 0 then texts[0] else " " + texts[i])
  }

  function AllSpaced(texts: seq<string>): (spaced: seq<string>)
    ensures |spaced| == |texts| && forall i | 0 <= i < |texts| :: spaced[i] == " " + texts[i]
  {
    seq(|texts|, i requires 0 <= i < |texts| => " " + texts[i])
  }

  lemma {:induction false} JoinAllSpaced(texts: seq<string>)
    requires texts != []
    ensures Join(AllSpaced(texts), ",") == " " + Join(texts, ", ")
  {
    if |texts| > 1 {
      JoinAllSpaced(texts[1..]);
      assert AllSpaced(texts)[1..] == AllSpaced(texts[1..]);
      assert Join(AllSpaced(texts), ",") == (" " + texts[0]) + "," + (" " + Join(texts[1..], ", "));
      assert (" " + texts[0]) + "," + (" " + Join(texts[1..], ", ")) == " " +
        (texts[0] + ", " + Join(texts[1..], ", "));
    }
  }

  // A comma and a space is a comma with the space left in the next entry.
  lemma JoinSpaced(texts: seq<string>)
    requires texts != []
    ensures Join(Spaced(texts), ",") == Join(texts, ", ")
  {
    if |texts| > 1 {
      JoinAllSpaced(texts[1..]);
      assert Spaced(texts)[1..] == AllSpaced(texts[1..]);
      assert texts[0] + "," + (" " + Join(texts[1..], ", ")) == texts[0] + ", " + Join(texts[1..], ", ");
    }
  }

  ghost predicate AllProper(es: seq<Entry>) {
    forall e | e in es :: Proper(e)
  }

  lemma EntryChars(e: Entry)
    requires Proper(e)
    ensures EntryText(e) != "" && Free(EntryText(e), IsComma)
    ensures !IsSpace(EntryText(e)[0]) && !IsSpace(EntryText(e)[|EntryText(e)| - 1])
  {
    hide Sign;
    NameShape(e.name);
    assert e.name[0] in e.name && e.name[|e.name| - 1] in e.name;
    if e.constraint.clauses != [] {
      assert e.constraint.clauses[0].version.Valid();
      var op, v := e.constraint.clauses[0].op, e.constraint.clauses[0].version;
      ExpressionChars(op, v);
      assert EntryText(e) == e.name + " (" + (Sign(op) + " " + v.raw) + ")";
      ConstrainedChars(e.name, Sign(op) + " " + v.raw, EntryText(e));
    }
  }

  lemma ConstrainedChars(name: string, expression: string, text: string)
    requires ValidPackageName(name) && ',' !in expression && text == name + " (" + expression + ")"
    ensures text != "" && Free(text, IsComma) && text[0] == name[0] && text[|text| - 1] == ')'
  {
    NameShape(name);
    forall c | c in text
      ensures !IsComma(c)
    {
      assert c in name || c in " (" || c in expression || c == ')';
    }
  }

  // The field splits into its entries, with the space after each comma.
  lemma FieldSplits(es: seq<Entry>)
    requires AllProper(es)
    ensures SplitTerminator(Join(Texts(es), ", ")) == Spaced(Texts(es))
  {
    var texts := Texts(es);
    if es == [] {
      assert SplitOn("", IsComma) == [""];
    } else {
      JoinSpaced(texts);
      forall part | part in Spaced(texts)
        ensures Free(part, IsComma) && part != ""
      {
        var i :| 0 <= i < |texts| && Spaced(texts)[i] == part;
        assert es[i] in es;
        EntryChars(es[i]);
      }
      SplitOfJoin(Spaced(texts), ',', IsComma);
      assert Spaced(texts)[|texts| - 1] in Spaced(texts);
    }
  }

  lemma SpacedEntry(e: Entry, text: string)
    requires Proper(e) && (text == EntryText(e) || text == " " + EntryText(e))
    ensures ParseEntry(text) == ParseEntry(EntryText(e))
  {
    EntryChars(e);
    StripSpaced(EntryText(e));
  }

  lemma {:induction false} EntriesBack(es: seq<Entry>, texts: seq<string>)
    requires AllProper(es) && |texts| == |es|
    requires forall i | 0 <= i < |es| :: texts[i] == EntryOf(es[i]) || texts[i] == " " + EntryOf(es[i])
    ensures ParseAll(texts).Ok? <==> forall e | e in es :: LongVersions(e)
    ensures ParseAll(texts).Ok? ==> ParseAll(texts) == Ok(es)
  {
    if es != [] {
      assert es[0] in es && es == [es[0]] + es[1..];
      SpacedEntry(es[0], texts[0]);
      EntryBack(es[0]);
      EntriesBack(es[1..], texts[1..]);
    }
  }

  function EntryOf(e: Entry): string {
    RenderedText(e)
  }

  // What a field was rendered from, in the order it was rendered.
  function Rendered(ps: seq<PackageRequirement>): seq<Entry> {
    SortBy(Entries(ps), CompareEntries)
  }

  // A rendered field parses back to exactly the names and constraints it was rendered
  // from, in rendered order, if and only if every version has two components or more.
  lemma FieldRoundTrip(ps: seq<PackageRequirement>, text: string)
    requires RenderField(ps) == Ok(text) && AllProper(Entries(ps))
    ensures ParseField(text).Ok? <==> forall e | e in Entries(ps) :: LongVersions(e)
    ensures ParseField(text).Ok? ==> ParseField(text) == Ok(Rendered(ps))
    ensures multiset(Rendered(ps)) == multiset(Entries(ps))
    ensures Sorted(Texts(Rendered(ps)), CompareText)
  {
    RenderedTexts({}, ps);
    SortTexts(Entries(ps));
    SortElements(Entries(ps), CompareEntries);
    TextBack(Rendered(ps), text);
    TextsSorted(ps);
  }

  lemma TextBack(es: seq<Entry>, text: string)
    requires AllProper(es) && text == Join(Texts(es), ", ")
    ensures ParseField(text).Ok? <==> forall e | e in es :: LongVersions(e)
    ensures ParseField(text).Ok? ==> ParseField(text) == Ok(es)
  {
    FieldSplits(es);
    EntriesBack(es, Spaced(Texts(es)));
  }

  lemma TextsSorted(ps: seq<PackageRequirement>)
    ensures Sorted(Texts(Rendered(ps)), CompareText)
  {
    SortTexts(Entries(ps));
    OrderingByText((t: string) => t, CompareText);
    SortSorted(Texts(Entries(ps)), CompareText);
  }

  // What the renderer accepts is proper, given valid names and versions.
  lemma RenderedIsProper(ps: seq<PackageRequirement>)
    requires RenderField(ps).Ok?
    requires forall p | p in ps :: ValidPackageName(p.name) && forall c | c in p.constraint.clauses :: c.version.Valid()
    ensures AllProper(Entries(ps))
  {
    AllRenderable({}, ps);
    forall e | e in Entries(ps)
      ensures Proper(e)
    {
      var i :| 0 <= i < |ps| && Entries(ps)[i] == e;
      assert ps[i] in ps && Renderable(ps[i]);
      forall k | 0 <= k < |e.constraint.clauses|
        ensures e.constraint.clauses[k].op != Ne && e.constraint.clauses[k].version.Valid()
      {
        assert ps[i].constraint.clauses[k] in ps[i].constraint.clauses;
      }
    }
  }
}
