/** The required parameters of a workflow's entry point, read from the text of its
    Go parameter list, and the check that a start passes all of them. */
module EntryParams {
  import opened Basics
  import opened Text

  // ---------------------------------------------------------------- white-space words

  function FirstWord(s: string): (w: string)
    ensures w <= s && (s != "" && !IsSpace(s[0]) ==> w != "")
  {
    if s != "" && !IsSpace(s[0]) then [s[0]] + FirstWord(s[1..]) else ""
  }

  /** s.split() */
  function Words(s: string): seq<string>
    decreases |s|
  {
    if s == "" then []
    else if IsSpace(s[0]) then Words(s[1..])
    else [FirstWord(s)] + Words(s[|FirstWord(s)|..])
  }

  /** A token: something that neither splitting takes apart. */
  predicate IsToken(s: string) {
    s != "" && forall i :: 0 <= i < |s| ==> !IsSpace(s[i]) && s[i] != ','
  }

  lemma {:induction false} FirstWordOf(w: string, rest: string)
    requires forall i :: 0 <= i < |w| ==> !IsSpace(w[i])
    requires rest == "" || IsSpace(rest[0])
    ensures FirstWord(w + rest) == w
  {
    if w == "" {
      assert w + rest == rest;
    } else {
      assert (w + rest)[1..] == w[1..] + rest;
      FirstWordOf(w[1..], rest);
    }
  }

  predicate AreTokens(ws: seq<string>) {
    forall i :: 0 <= i < |ws| ==> IsToken(ws[i])
  }

  lemma {:induction false} WordsJoin(ws: seq<string>)
    requires AreTokens(ws)
    ensures Words(Join(ws, " ")) == ws
  {
    if |ws| == 1 {
      FirstWordOf(ws[0], "");
      assert ws[0] + "" == ws[0];
    } else if |ws| > 1 {
      var rest := " " + Join(ws[1..], " ");
      assert Join(ws, " ") == ws[0] + rest;
      FirstWordOf(ws[0], rest);
      assert (ws[0] + rest)[|ws[0]|..] == rest;
      assert rest[1..] == Join(ws[1..], " ");
      WordsJoin(ws[1..]);
    }
  }

  predicate Spaces(s: string) { forall i :: 0 <= i < |s| ==> IsSpace(s[i]) }

  lemma {:induction false} SkipSpaces(blank: string, s: string)
    requires Spaces(blank)
    ensures Words(blank + s) == Words(s)
  {
    if blank == "" {
      assert blank + s == s;
    } else {
      assert (blank + s)[1..] == blank[1..] + s;
      SkipSpaces(blank[1..], s);
    }
  }

  lemma {:induction false} FirstWordStops(s: string, rest: string)
    requires rest != "" && IsSpace(rest[0])
    ensures FirstWord(s + rest) == FirstWord(s)
  {
    if s == "" {
      assert s + rest == rest;
    } else {
      assert (s + rest)[1..] == s[1..] + rest;
      FirstWordStops(s[1..], rest);
    }
  }

  /** Any stretch of white space separates, line breaks included, and no amount of it
      makes a word of its own. */
  lemma {:induction false} WordsConcat(a: string, blank: string, b: string)
    requires blank != "" && Spaces(blank)
    ensures Words(a + (blank + b)) == Words(a) + Words(b)
    decreases |a|
  {
    var rest := blank + b;
    if a == "" {
      assert a + rest == rest;
      SkipSpaces(blank, b);
    } else if IsSpace(a[0]) {
      assert (a + rest)[1..] == a[1..] + rest;
      WordsConcat(a[1..], blank, b);
    } else {
      var w := FirstWord(a);
      FirstWordStops(a, rest);
      assert (a + rest)[|w|..] == a[|w|..] + rest;
      WordsConcat(a[|w|..], blank, b);
    }
  }

  // ------------------------------------------------------------------------- the reader

  datatype Field = Field(name: string, typ: Option<string>)

  function FieldOf(toks: seq<string>): seq<Field> {
    if |toks| == 2 then [Field(toks[0], Some(toks[1]))]
    else if |toks| == 1 then [Field(toks[0], None)]
    else []
  }

  function Fields(parts: seq<string>): seq<Field> {
    if parts == [] then [] else Fields(parts[..|parts| - 1]) + FieldOf(Words(parts[|parts| - 1]))
  }

  /** Every name takes the type that follows it: its own, or its right neighbour's. */
  function Resolve(fields: seq<Field>): (r: seq<Field>)
    ensures |r| == |fields|
  {
    if fields == [] then []
    else
      var rest := Resolve(fields[1..]);
      var typ := if fields[0].typ.Some? then fields[0].typ else if rest == [] then None else rest[0].typ;
      [Field(fields[0].name, typ)] + rest
  }

  predicate IsPointer(f: Field) { f.typ.Some? && "*" <= f.typ.value }

  function Required(fields: seq<Field>): seq<string> {
    if fields == [] then []
    else
      var last := fields[|fields| - 1];
      Required(fields[..|fields| - 1]) + if IsPointer(last) then [] else [last.name]
  }

  /** None: the payload does not bind by name. */
  function Declared(resolved: seq<Field>): Option<seq<string>> {
    if resolved == [] || (|resolved| == 1 && resolved[0].typ == Some("string")) then None
    else Some(Required(resolved))
  }

  /** What is enforced, with None meaning nothing. */
  function Enforced(r: Option<seq<string>>): seq<string> {
    if r.None? then [] else r.value
  }

  method ReadFields(parts: seq<string>) returns (fields: seq<Field>)
    ensures fields == Fields(parts)
  {
    fields := [];
    for i := 0 to |parts|
      invariant fields == Fields(parts[..i])
    {
      assert parts[..i + 1][..i] == parts[..i];
      var toks := Words(parts[i]);
      if |toks| == 2 {
        fields := fields + [Field(toks[0], Some(toks[1]))];
      } else if |toks| == 1 {
        fields := fields + [Field(toks[0], None)];
      }
    }
    assert parts[..|parts|] == parts;
  }

  function Reversed(fs: seq<Field>): (r: seq<Field>)
    ensures |r| == |fs|
    ensures forall i :: 0 <= i < |fs| ==> r[i] == fs[|fs| - 1 - i]
  {
    seq(|fs|, i requires 0 <= i < |fs| => fs[|fs| - 1 - i])
  }

  /** From right to left, carrying the type; then turned round. */
  method ResolveFields(fields: seq<Field>) returns (resolved: seq<Field>)
    ensures resolved == Resolve(fields)
  {
    resolved := [];
    var carried: Option<string> := None;
    for i := |fields| downto 0
      invariant Reversed(resolved) == Resolve(fields[i..])
      invariant carried == if i == |fields| then None else Resolve(fields[i..])[0].typ
    {
      ghost var below := Resolve(fields[i + 1..]);
      assert fields[i..] == [fields[i]] + fields[i + 1..];
      ResolveCons(fields[i], fields[i + 1..]);
      if fields[i].typ.Some? {
        carried := fields[i].typ;
      }
      ghost var before := resolved;
      resolved := resolved + [Field(fields[i].name, carried)];
      assert Reversed(resolved) == [Field(fields[i].name, carried)] + Reversed(before);
    }
    assert fields[0..] == fields;
    resolved := Reversed(resolved);
  }

  lemma ResolveCons(f: Field, below: seq<Field>)
    ensures Resolve([f] + below) == [Field(f.name,
      if f.typ.Some? then f.typ else if below == [] then None else Resolve(below)[0].typ)] + Resolve(below)
  {
    assert ([f] + below)[1..] == below;
  }

  method RequiredOf(fields: seq<Field>) returns (names: seq<string>)
    ensures names == Required(fields)
  {
    names := [];
    for i := 0 to |fields|
      invariant names == Required(fields[..i])
    {
      assert fields[..i + 1][..i] == fields[..i];
      if !IsPointer(fields[i]) {
        names := names + [fields[i].name];
      }
    }
    assert fields[..|fields|] == fields;
  }

  /** Reads the text between the host argument and the closing parenthesis, or
      nothing when the entry point was not recognised. */
  method Read(signature: Option<string>) returns (r: Option<seq<string>>)
    ensures r == match signature
                 case None => None
                 case Some(text) => Declared(Resolve(Fields(Split(text, ','))))
  {
    if signature.None? {
      return None;
    }
    var fields := ReadFields(Split(signature.value, ','));
    if fields == [] {
      return None;
    }
    var resolved := ResolveFields(fields);
    if |resolved| == 1 && resolved[0].typ == Some("string") {
      return None;
    }
    var names := RequiredOf(resolved);
    r := Some(names);
  }

  // ------------------------------------------------------------------ printing and back

  /** The parts of a list, each a few tokens, as gofmt writes them. */
  function Parts(tokens: seq<seq<string>>): (r: seq<string>)
    ensures |r| == |tokens|
  {
    seq(|tokens|, i requires 0 <= i < |tokens| => Join(tokens[i], " "))
  }

  function Print(tokens: seq<seq<string>>): string { Join(Parts(tokens), ", ") }

  function FieldsOfTokens(tokens: seq<seq<string>>): seq<Field> {
    if tokens == [] then [] else FieldOf(tokens[0]) + FieldsOfTokens(tokens[1..])
  }

  ghost predicate WellFormed(tokens: seq<seq<string>>) {
    forall i :: 0 <= i < |tokens| ==> tokens[i] != [] && AreTokens(tokens[i])
  }

  lemma {:induction false} NoCommaInPart(ws: seq<string>)
    requires AreTokens(ws)
    ensures ',' !in Join(ws, " ")
  {
    if |ws| > 1 {
      NoCommaInPart(ws[1..]);
    }
  }

  lemma FieldsStep(parts: seq<string>)
    requires parts != []
    ensures Fields(parts) == FieldOf(Words(parts[0])) + Fields(parts[1..])
  {
    FieldsConcat([parts[0]], parts[1..]);
    assert [parts[0]] + parts[1..] == parts;
    FieldsOne(parts[0]);
  }

  lemma FieldsOne(part: string)
    ensures Fields([part]) == FieldOf(Words(part))
  {
    assert [part][..0] == [];
    assert Fields([]) == [];
  }

  lemma {:induction false} FieldsConcat(a: seq<string>, b: seq<string>)
    ensures Fields(a + b) == Fields(a) + Fields(b)
  {
    if b == [] {
      assert a + b == a;
    } else {
      assert (a + b)[..|a + b| - 1] == a + b[..|b| - 1];
      FieldsConcat(a, b[..|b| - 1]);
    }
  }

  lemma PartWords(ws: seq<string>, blank: string)
    requires AreTokens(ws) && (blank == "" || blank == " ")
    ensures Words(blank + Join(ws, " ")) == ws && ',' !in blank + Join(ws, " ")
  {
    var part := Join(ws, " ");
    NoCommaInPart(ws);
    WordsJoin(ws);
    assert (" " + part)[1..] == part;
    assert "" + part == part;
  }

  lemma PrintStep(tokens: seq<seq<string>>)
    requires |tokens| > 1
    ensures Print(tokens) == Join(tokens[0], " ") + [','] + (" " + Print(tokens[1..]))
  {
    assert Parts(tokens)[1..] == Parts(tokens[1..]);
  }

  /** Reading the printed text sees exactly the tokens, also after the blank that
      follows a comma. */
  lemma {:induction false} PrintedFields(tokens: seq<seq<string>>, blank: string)
    requires tokens != [] && WellFormed(tokens) && (blank == "" || blank == " ")
    ensures Fields(Split(blank + Print(tokens), ',')) == FieldsOfTokens(tokens)
  {
    var part := blank + Join(tokens[0], " ");
    PartWords(tokens[0], blank);
    if |tokens| == 1 {
      assert blank + Print(tokens) == part;
      SplitPlain(part, ',');
      FieldsStep([part]);
      assert tokens[1..] == [];
    } else {
      var rest := " " + Print(tokens[1..]);
      PrintStep(tokens);
      assert blank + Print(tokens) == part + [','] + rest;
      SplitFirst(part, rest, ',');
      PrintedFields(tokens[1..], " ");
      FieldsStep([part] + Split(rest, ','));
      assert ([part] + Split(rest, ','))[1..] == Split(rest, ',');
    }
  }

  /** One type for one or more names. */
  datatype Group = Group(names: seq<string>, typ: string)

  ghost predicate LegalGroup(g: Group) {
    g.names != [] && AreTokens(g.names) && IsToken(g.typ)
  }

  ghost predicate Legal(gs: seq<Group>) {
    forall i :: 0 <= i < |gs| ==> LegalGroup(gs[i])
  }

  /** The parameters a group declares, one by one. */
  function Flat(g: Group): seq<Field> {
    seq(|g.names|, i requires 0 <= i < |g.names| => Field(g.names[i], Some(g.typ)))
  }

  function Flatten(gs: seq<Group>): seq<Field> {
    if gs == [] then [] else Flat(gs[0]) + Flatten(gs[1..])
  }

  function GroupTokens(g: Group): seq<seq<string>> {
    seq(|g.names|, i requires 0 <= i < |g.names| =>
      if i == |g.names| - 1 then [g.names[i], g.typ] else [g.names[i]])
  }

  function Tokens(gs: seq<Group>): seq<seq<string>> {
    if gs == [] then [] else GroupTokens(gs[0]) + Tokens(gs[1..])
  }

  /** The fields of a group as they are read: only the last name has the type. */
  function GroupFields(g: Group): seq<Field> {
    seq(|g.names|, i requires 0 <= i < |g.names| =>
      Field(g.names[i], if i == |g.names| - 1 then Some(g.typ) else None))
  }

  lemma GroupCons(g: Group)
    requires |g.names| > 1
    ensures var smaller := Group(g.names[1..], g.typ);
      && GroupTokens(g) == [[g.names[0]]] + GroupTokens(smaller)
      && GroupFields(g) == [Field(g.names[0], None)] + GroupFields(smaller)
  {
  }

  lemma {:induction false} TokensConcat(a: seq<seq<string>>, b: seq<seq<string>>)
    ensures FieldsOfTokens(a + b) == FieldsOfTokens(a) + FieldsOfTokens(b)
  {
    if a == [] {
      assert a + b == b;
    } else {
      assert (a + b)[1..] == a[1..] + b;
      TokensConcat(a[1..], b);
    }
  }

  lemma {:induction false} GroupFieldsAre(g: Group)
    requires g.names != []
    ensures FieldsOfTokens(GroupTokens(g)) == GroupFields(g)
    decreases |g.names|
  {
    if |g.names| == 1 {
      assert GroupTokens(g) == [[g.names[0], g.typ]];
      assert GroupTokens(g)[1..] == [];
    } else {
      var smaller := Group(g.names[1..], g.typ);
      GroupFieldsAre(smaller);
      GroupCons(g);
      assert GroupTokens(g)[1..] == GroupTokens(smaller);
    }
  }

  lemma FieldsOfGroup(g: Group, rest: seq<seq<string>>)
    requires g.names != []
    ensures FieldsOfTokens(GroupTokens(g) + rest) == GroupFields(g) + FieldsOfTokens(rest)
  {
    GroupFieldsAre(g);
    TokensConcat(GroupTokens(g), rest);
  }

  lemma {:induction false} ResolveGroup(g: Group, below: seq<Field>)
    requires g.names != []
    ensures Resolve(GroupFields(g) + below) == Flat(g) + Resolve(below)
    decreases |g.names|
  {
    if |g.names| == 1 {
      ResolveCons(Field(g.names[0], Some(g.typ)), below);
      assert GroupFields(g) == Flat(g) == [Field(g.names[0], Some(g.typ))];
    } else {
      var smaller := Group(g.names[1..], g.typ);
      ResolveGroup(smaller, below);
      ResolveCons(Field(g.names[0], None), GroupFields(smaller) + below);
      assert GroupFields(g) + below == [Field(g.names[0], None)] + (GroupFields(smaller) + below);
      assert (Flat(smaller) + Resolve(below))[0] == Field(g.names[1], Some(g.typ));
      FlatCons(g);
    }
  }

  lemma FlatCons(g: Group)
    requires |g.names| > 1
    ensures Flat(g) == [Field(g.names[0], Some(g.typ))] + Flat(Group(g.names[1..], g.typ))
  {
  }

  lemma {:induction false} ResolveGroups(gs: seq<Group>)
    requires Legal(gs)
    ensures Resolve(FieldsOfTokens(Tokens(gs))) == Flatten(gs)
  {
    if gs != [] {
      ResolveGroups(gs[1..]);
      assert LegalGroup(gs[0]);
      FieldsOfGroup(gs[0], Tokens(gs[1..]));
      ResolveGroup(gs[0], FieldsOfTokens(Tokens(gs[1..])));
    }
  }

  lemma {:induction false} TokensWellFormed(gs: seq<Group>)
    requires Legal(gs)
    ensures WellFormed(Tokens(gs)) && (gs != [] ==> Tokens(gs) != [])
  {
    if gs != [] {
      assert LegalGroup(gs[0]);
      TokensWellFormed(gs[1..]);
    }
  }

  /** Round trip: however adjacent parameters of one type are grouped, the reader
      gives every name its type. */
  lemma ReadsWhatIsPrinted(gs: seq<Group>)
    requires Legal(gs)
    ensures Resolve(Fields(Split(Print(Tokens(gs)), ','))) == Flatten(gs)
  {
    TokensWellFormed(gs);
    ResolveGroups(gs);
    if gs == [] {
      assert Print([]) == "";
      FieldsStep([""]);
    } else {
      PrintedFields(Tokens(gs), "");
      assert "" + Print(Tokens(gs)) == Print(Tokens(gs));
    }
  }

  /** So the answer is None exactly for no parameters and for a single string, and
      otherwise the names that are not pointers, in order. */
  lemma DeclaredByPrinted(gs: seq<Group>)
    requires Legal(gs)
    ensures var r := Declared(Resolve(Fields(Split(Print(Tokens(gs)), ','))));
      && (r == None <==> Flatten(gs) == [] || (|Flatten(gs)| == 1 && Flatten(gs)[0].typ == Some("string")))
      && (r.Some? ==> r.value == Required(Flatten(gs)))
  {
    ReadsWhatIsPrinted(gs);
  }
}
