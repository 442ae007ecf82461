/** What the parameter-list reader enforces when types have any number of tokens,
    and exactly when that is what it should enforce. */
module EntryIntent {
  import opened Basics
  import opened Text
  import opened EntryParams

  /** One or more names with one type, written as one or more tokens. */
  datatype WideGroup = WideGroup(names: seq<string>, typ: seq<string>) {
    predicate Plain() { |typ| == 1 }

    predicate Pointer() { typ != [] && "*" <= typ[0] }

    predicate Single() { |names| == 1 }
  }

  ghost predicate LegalWideGroup(g: WideGroup) {
    g.names != [] && AreTokens(g.names) && g.typ != [] && AreTokens(g.typ)
  }

  ghost predicate LegalWide(gs: seq<WideGroup>) {
    forall i :: 0 <= i < |gs| ==> LegalWideGroup(gs[i])
  }

  function AllNames(gs: seq<WideGroup>): seq<string> {
    if gs == [] then [] else gs[0].names + AllNames(gs[1..])
  }

  /** The type is written after the last name. */
  function WideGroupTokens(g: WideGroup): (r: seq<seq<string>>)
    ensures |r| == |g.names|
  {
    seq(|g.names|, i requires 0 <= i < |g.names| =>
      if i == |g.names| - 1 then [g.names[i]] + g.typ else [g.names[i]])
  }

  function WideTokens(gs: seq<WideGroup>): seq<seq<string>> {
    if gs == [] then [] else WideGroupTokens(gs[0]) + WideTokens(gs[1..])
  }

  /** The parameters whose absence should be refused. */
  function Needed(gs: seq<WideGroup>): seq<string> {
    if gs == [] then [] else (if gs[0].Pointer() then [] else gs[0].names) + Needed(gs[1..])
  }

  /** What should be enforced: nothing for a single string, else every needed one. */
  function Intended(gs: seq<WideGroup>): seq<string> {
    if |gs| == 1 && gs[0].Single() && gs[0].typ == ["string"] then [] else Needed(gs)
  }

  /** What the reader makes of the printed list. */
  function Recovered(gs: seq<WideGroup>): seq<string> {
    Enforced(Declared(Resolve(Fields(Split(Print(WideTokens(gs)), ',')))))
  }

  // ------------------------------------------------------------- what the reader sees

  function Typed(names: seq<string>, typ: Option<string>): (r: seq<Field>)
    ensures |r| == |names| && forall i :: 0 <= i < |r| ==> r[i] == Field(names[i], typ)
  {
    if names == [] then [] else [Field(names[0], typ)] + Typed(names[1..], typ)
  }

  /** The type a bare name takes from the groups on its right: that of the first one
      whose type is a single token. */
  function Carried(gs: seq<WideGroup>): Option<string> {
    if gs == [] then None
    else if gs[0].Plain() then Some(gs[0].typ[0])
    else Carried(gs[1..])
  }

  /** The names of a group that survive: the part that holds a longer type is dropped,
      with the name before it. */
  function Survivors(g: WideGroup): seq<string>
    requires g.names != []
  {
    if g.Plain() then g.names else g.names[..|g.names| - 1]
  }

  function ReadAs(gs: seq<WideGroup>): seq<Field>
    requires LegalWide(gs)
  {
    if gs == [] then []
    else
      assert LegalWideGroup(gs[0]);
      Typed(Survivors(gs[0]), Carried(gs)) + ReadAs(gs[1..])
  }

  /** Names without a type, each a part of its own. */
  function Bare(names: seq<string>): (r: seq<seq<string>>)
    ensures |r| == |names| && forall i :: 0 <= i < |r| ==> r[i] == [names[i]]
  {
    if names == [] then [] else [[names[0]]] + Bare(names[1..])
  }

  lemma {:induction false} BareFields(names: seq<string>)
    ensures FieldsOfTokens(Bare(names)) == Typed(names, None)
  {
    if names != [] {
      assert Bare(names)[1..] == Bare(names[1..]);
      BareFields(names[1..]);
    }
  }

  lemma {:induction false} ResolveBare(names: seq<string>, below: seq<Field>, typ: Option<string>)
    requires typ == if below == [] then None else Resolve(below)[0].typ
    ensures Resolve(Typed(names, None) + below) == Typed(names, typ) + Resolve(below)
  {
    if names == [] {
      assert Typed(names, None) + below == below;
    } else {
      var rest := Typed(names[1..], None) + below;
      ResolveBare(names[1..], below, typ);
      ResolveCons(Field(names[0], None), rest);
      assert Typed(names, None) + below == [Field(names[0], None)] + rest;
      assert Typed(names, typ) == [Field(names[0], typ)] + Typed(names[1..], typ);
    }
  }

  lemma PlainGroupRead(g: WideGroup, rest: seq<seq<string>>)
    requires LegalWideGroup(g) && g.Plain()
    ensures Resolve(FieldsOfTokens(WideGroupTokens(g) + rest))
         == Typed(g.names, Some(g.typ[0])) + Resolve(FieldsOfTokens(rest))
  {
    var plain := Group(g.names, g.typ[0]);
    assert g.typ == [g.typ[0]];
    assert [g.names[|g.names| - 1]] + g.typ == [g.names[|g.names| - 1], g.typ[0]];
    assert WideGroupTokens(g) == GroupTokens(plain);
    assert Typed(g.names, Some(g.typ[0])) == Flat(plain);
    FieldsOfGroup(plain, rest);
    ResolveGroup(plain, FieldsOfTokens(rest));
  }

  function LastPart(g: WideGroup): seq<string>
    requires g.names != []
  {
    [g.names[|g.names| - 1]] + g.typ
  }

  lemma LongGroupTokens(g: WideGroup, rest: seq<seq<string>>)
    requires g.names != [] && !g.Plain()
    ensures WideGroupTokens(g) + rest == Bare(Survivors(g)) + ([LastPart(g)] + rest)
  {
  }

  lemma DroppedPart(part: seq<string>, rest: seq<seq<string>>)
    requires |part| >= 3
    ensures FieldsOfTokens([part] + rest) == FieldsOfTokens(rest)
  {
    assert ([part] + rest)[1..] == rest;
  }

  /** All but the last name of a group with a longer type are read without one. */
  lemma LongGroupFields(g: WideGroup, rest: seq<seq<string>>)
    requires LegalWideGroup(g) && !g.Plain()
    ensures FieldsOfTokens(WideGroupTokens(g) + rest) == Typed(Survivors(g), None) + FieldsOfTokens(rest)
  {
    var bare, tail := Bare(Survivors(g)), [LastPart(g)] + rest;
    assert FieldsOfTokens(tail) == FieldsOfTokens(rest) by { DroppedPart(LastPart(g), rest); }
    assert FieldsOfTokens(bare) == Typed(Survivors(g), None) by { BareFields(Survivors(g)); }
    assert FieldsOfTokens(bare + tail) == FieldsOfTokens(bare) + FieldsOfTokens(tail) by { TokensConcat(bare, tail); }
    LongGroupTokens(g, rest);
  }

  lemma LongGroupRead(g: WideGroup, rest: seq<seq<string>>, typ: Option<string>)
    requires LegalWideGroup(g) && !g.Plain()
    requires var below := FieldsOfTokens(rest); typ == if below == [] then None else Resolve(below)[0].typ
    ensures Resolve(FieldsOfTokens(WideGroupTokens(g) + rest))
         == Typed(Survivors(g), typ) + Resolve(FieldsOfTokens(rest))
  {
    LongGroupFields(g, rest);
    ResolveBare(Survivors(g), FieldsOfTokens(rest), typ);
  }

  /** A bare name is read with the type of the first plain group to its right. */
  lemma {:induction false} WideResolved(gs: seq<WideGroup>)
    requires LegalWide(gs)
    ensures Resolve(FieldsOfTokens(WideTokens(gs))) == ReadAs(gs)
    ensures Carried(gs) == if ReadAs(gs) == [] then None else ReadAs(gs)[0].typ
  {
    if gs != [] {
      assert LegalWideGroup(gs[0]);
      WideResolved(gs[1..]);
      if gs[0].Plain() {
        PlainGroupRead(gs[0], WideTokens(gs[1..]));
      } else {
        LongGroupRead(gs[0], WideTokens(gs[1..]), Carried(gs));
      }
    }
  }

  lemma {:induction false} WideWellFormed(gs: seq<WideGroup>)
    requires LegalWide(gs)
    ensures WellFormed(WideTokens(gs)) && (gs != [] ==> WideTokens(gs) != [])
  {
    if gs != [] {
      assert LegalWideGroup(gs[0]);
      WideWellFormed(gs[1..]);
    }
  }

  /** Round trip for every grouping and every length of type: what is read back. */
  lemma ReadsWide(gs: seq<WideGroup>)
    requires LegalWide(gs)
    ensures Resolve(Fields(Split(Print(WideTokens(gs)), ','))) == ReadAs(gs)
  {
    WideWellFormed(gs);
    WideResolved(gs);
    if gs == [] {
      assert Print([]) == "";
      FieldsStep([""]);
    } else {
      PrintedFields(WideTokens(gs), "");
      assert "" + Print(WideTokens(gs)) == Print(WideTokens(gs));
    }
  }

  // ------------------------------------------------------------- what is enforced

  predicate IsPointerType(typ: Option<string>) { typ.Some? && "*" <= typ.value }

  /** The names that are read as required. */
  function NeededRead(gs: seq<WideGroup>): seq<string>
    requires LegalWide(gs)
  {
    if gs == [] then []
    else
      assert LegalWideGroup(gs[0]);
      (if IsPointerType(Carried(gs)) then [] else Survivors(gs[0])) + NeededRead(gs[1..])
  }

  lemma {:induction false} RequiredConcat(a: seq<Field>, b: seq<Field>)
    ensures Required(a + b) == Required(a) + Required(b)
  {
    if b == [] {
      assert a + b == a;
    } else {
      assert (a + b)[..|a + b| - 1] == a + b[..|b| - 1];
      RequiredConcat(a, b[..|b| - 1]);
    }
  }

  lemma {:induction false} RequiredUniform(fs: seq<Field>, names: seq<string>, pointers: bool)
    requires |fs| == |names| && forall i :: 0 <= i < |fs| ==> fs[i].name == names[i] && IsPointer(fs[i]) == pointers
    ensures Required(fs) == if pointers then [] else names
  {
    if fs != [] {
      var m := |fs| - 1;
      RequiredUniform(fs[..m], names[..m], pointers);
      assert names == names[..m] + [names[m]];
    }
  }

  lemma RequiredTyped(names: seq<string>, typ: Option<string>)
    ensures Required(Typed(names, typ)) == if IsPointerType(typ) then [] else names
  {
    RequiredUniform(Typed(names, typ), names, IsPointerType(typ));
  }

  lemma {:induction false} RequiredIs(gs: seq<WideGroup>)
    requires LegalWide(gs)
    ensures Required(ReadAs(gs)) == NeededRead(gs)
  {
    if gs != [] {
      assert LegalWideGroup(gs[0]);
      RequiredIs(gs[1..]);
      RequiredTyped(Survivors(gs[0]), Carried(gs));
      RequiredConcat(Typed(Survivors(gs[0]), Carried(gs)), ReadAs(gs[1..]));
    }
  }

  // --------------------------------------------------- when dropping leaves a lone string

  /** Group `j` is a single string and every other group is dropped entirely. */
  ghost predicate LoneAt(gs: seq<WideGroup>, j: int) {
    && 0 <= j < |gs| && gs[j].Single() && gs[j].typ == ["string"]
    && forall k :: 0 <= k < |gs| && k != j ==> gs[k].Single() && !gs[k].Plain()
  }

  /** Dropping leaves a lone string, which switches the check off. */
  ghost predicate LeavesLoneString(gs: seq<WideGroup>) {
    |gs| > 1 && exists j :: LoneAt(gs, j)
  }

  ghost predicate AllDropped(gs: seq<WideGroup>) {
    forall k :: 0 <= k < |gs| ==> gs[k].Single() && !gs[k].Plain()
  }

  lemma AllDroppedNext(gs: seq<WideGroup>)
    requires gs != []
    ensures AllDropped(gs) <==> gs[0].Single() && !gs[0].Plain() && AllDropped(gs[1..])
  {
    assert gs == [gs[0]] + gs[1..];
  }

  lemma {:induction false} NothingReadIff(gs: seq<WideGroup>)
    requires LegalWide(gs)
    ensures ReadAs(gs) == [] <==> AllDropped(gs)
  {
    if gs != [] {
      assert LegalWideGroup(gs[0]);
      NothingReadIff(gs[1..]);
      AllDroppedNext(gs);
    }
  }

  predicate IsLoneString(fs: seq<Field>) { |fs| == 1 && fs[0].typ == Some("string") }

  lemma LonePlainIff(gs: seq<WideGroup>)
    requires gs != [] && gs[0].Plain()
    ensures (exists j :: LoneAt(gs, j)) <==> gs[0].Single() && gs[0].typ == ["string"] && AllDropped(gs[1..])
  {
    assert gs == [gs[0]] + gs[1..];
    if gs[0].Single() && gs[0].typ == ["string"] && AllDropped(gs[1..]) {
      assert LoneAt(gs, 0);
    }
  }

  lemma LoneLongIff(gs: seq<WideGroup>)
    requires gs != [] && !gs[0].Plain()
    ensures (exists j :: LoneAt(gs, j)) <==> gs[0].Single() && exists j :: LoneAt(gs[1..], j)
  {
    if j :| LoneAt(gs, j) {
      LoneNext(gs, j);
    }
    if j :| LoneAt(gs[1..], j) {
      LoneNext(gs, j + 1);
    }
  }

  lemma {:induction false} LoneReadIff(gs: seq<WideGroup>)
    requires LegalWide(gs)
    ensures IsLoneString(ReadAs(gs)) <==> exists j :: LoneAt(gs, j)
  {
    if gs != [] {
      assert LegalWideGroup(gs[0]);
      var rest := gs[1..];
      NothingReadIff(rest);
      if gs[0].Plain() {
        LonePlainIff(gs);
        assert gs[0].typ == [gs[0].typ[0]];
      } else {
        LoneLongIff(gs);
        LoneReadIff(rest);
        WideResolved(rest);
      }
    }
  }

  lemma LoneNext(gs: seq<WideGroup>, j: int)
    requires gs != [] && !gs[0].Plain()
    ensures LoneAt(gs, j) <==> gs[0].Single() && LoneAt(gs[1..], j - 1)
  {
    assert gs == [gs[0]] + gs[1..];
  }

  lemma {:induction false} StringIsNeeded(gs: seq<WideGroup>, j: int)
    requires 0 <= j < |gs| && gs[j].names != [] && gs[j].typ == ["string"]
    ensures Needed(gs) != []
  {
    if j == 0 {
      assert "*"[0] != "string"[0];
    } else {
      StringIsNeeded(gs[1..], j - 1);
    }
  }

  /** The reader enforces what it should when it reads the needed names as required,
      and dropping does not leave a lone string. */
  lemma IntentByReadIff(gs: seq<WideGroup>)
    requires LegalWide(gs)
    ensures Recovered(gs) == Intended(gs) <==> NeededRead(gs) == Needed(gs) && !LeavesLoneString(gs)
  {
    ReadsWide(gs);
    RequiredIs(gs);
    LoneReadIff(gs);
    assert |gs| == 1 && gs[0].Single() && gs[0].typ == ["string"] ==> LoneAt(gs, 0);
    if j :| LoneAt(gs, j) {
      StringIsNeeded(gs, j);
      if |gs| == 1 {
        assert gs[1..] == [];
      }
    }
  }

  // ------------------------------------------------------------------ group by group

  /** The first group with a type of a single token is a pointer group. */
  ghost predicate MeetsPointer(gs: seq<WideGroup>) {
    exists j :: 0 <= j < |gs| && gs[j].Plain() && gs[j].Pointer() && forall k :: 0 <= k < j ==> !gs[k].Plain()
  }

  lemma {:induction false} CarriedIff(gs: seq<WideGroup>)
    ensures IsPointerType(Carried(gs)) <==> MeetsPointer(gs)
  {
    if gs != [] {
      var rest := gs[1..];
      CarriedIff(rest);
      if gs[0].Plain() {
        if gs[0].Pointer() {
          assert MeetsPointer(gs);
        }
      } else {
        if j :| 0 <= j < |rest| && rest[j].Plain() && rest[j].Pointer() && forall k :: 0 <= k < j ==> !rest[k].Plain() {
          assert gs[j + 1] == rest[j];
          assert forall k :: 0 < k < j + 1 ==> gs[k] == rest[k - 1];
        }
        if j :| 0 <= j < |gs| && gs[j].Plain() && gs[j].Pointer() && forall k :: 0 <= k < j ==> !gs[k].Plain() {
          assert rest[j - 1] == gs[j];
          assert forall k :: 0 <= k < j - 1 ==> rest[k] == gs[k + 1];
        }
      }
    }
  }

  /** Every type of several tokens is a pointer's. */
  ghost predicate OnlyPointersAreWide(gs: seq<WideGroup>) {
    forall i :: 0 <= i < |gs| ==> gs[i].Plain() || gs[i].Pointer()
  }

  /** The bare names of such a group borrow a pointer type from their right. */
  ghost predicate BorrowersMeetPointers(gs: seq<WideGroup>) {
    forall i :: 0 <= i < |gs| && !gs[i].Plain() && !gs[i].Single() ==> MeetsPointer(gs[i + 1..])
  }

  /** A group in front of others whose needed names are read as they should be. */
  ghost predicate Faithful(g: WideGroup, rest: seq<WideGroup>) {
    g.Plain() || (g.Pointer() && (g.Single() || MeetsPointer(rest)))
  }

  ghost predicate AllFaithful(gs: seq<WideGroup>) {
    gs == [] || (Faithful(gs[0], gs[1..]) && AllFaithful(gs[1..]))
  }

  lemma GroupIsFaithfulIff(g: WideGroup, rest: seq<WideGroup>)
    requires LegalWideGroup(g)
    ensures (if IsPointerType(Carried([g] + rest)) then [] else Survivors(g)) == (if g.Pointer() then [] else g.names)
      <==> Faithful(g, rest)
  {
    assert ([g] + rest)[1..] == rest;
    CarriedIff(rest);
  }

  lemma {:induction false} FaithfulEach(gs: seq<WideGroup>)
    ensures AllFaithful(gs) <==> forall i :: 0 <= i < |gs| ==> Faithful(gs[i], gs[i + 1..])
  {
    if gs != [] {
      var rest := gs[1..];
      FaithfulEach(rest);
      assert forall i :: 0 <= i < |rest| ==> rest[i] == gs[i + 1] && rest[i + 1..] == gs[i + 2..];
      if AllFaithful(gs) {
        forall i | 0 <= i < |gs| ensures Faithful(gs[i], gs[i + 1..]) {
          if i > 0 {
            assert Faithful(rest[i - 1], rest[i..]);
          }
        }
      }
    }
  }

  lemma FaithfulMeans(gs: seq<WideGroup>)
    ensures AllFaithful(gs) <==> OnlyPointersAreWide(gs) && BorrowersMeetPointers(gs)
  {
    FaithfulEach(gs);
    if OnlyPointersAreWide(gs) && BorrowersMeetPointers(gs) {
      forall i | 0 <= i < |gs| ensures Faithful(gs[i], gs[i + 1..]) {
      }
    }
    if forall i :: 0 <= i < |gs| ==> Faithful(gs[i], gs[i + 1..]) {
      forall i | 0 <= i < |gs| ensures (gs[i].Plain() || gs[i].Pointer())
        && (!gs[i].Plain() && !gs[i].Single() ==> MeetsPointer(gs[i + 1..]))
      {
        assert Faithful(gs[i], gs[i + 1..]);
      }
    }
  }

  /** Two lists with the names of the first part and the names of the second apart
      are equal exactly when their parts are. */
  lemma PartsEqualIff(x: seq<string>, y: seq<string>, xs: seq<string>, ys: seq<string>, first: seq<string>,
      second: seq<string>)
    requires forall n :: n in first ==> n !in second
    requires (forall n :: n in x ==> n in first) && (forall n :: n in y ==> n in first)
    requires (forall n :: n in xs ==> n in second) && (forall n :: n in ys ==> n in second)
    ensures x + xs == y + ys <==> x == y && xs == ys
  {
    if |x| < |y| {
      LongerPartDiffers(x, y, xs, ys, second);
    } else if |x| > |y| {
      LongerPartDiffers(y, x, ys, xs, second);
    } else {
      assert x == (x + xs)[..|x|] && y == (y + ys)[..|y|];
      assert xs == (x + xs)[|x|..] && ys == (y + ys)[|y|..];
    }
  }

  lemma LongerPartDiffers(x: seq<string>, y: seq<string>, xs: seq<string>, ys: seq<string>, second: seq<string>)
    requires |x| < |y| && (forall n :: n in y ==> n !in second) && (forall n :: n in xs ==> n in second)
    ensures x + xs != y + ys
  {
    assert (y + ys)[|x|] == y[|x|] && y[|x|] in y;
    if xs != [] {
      assert (x + xs)[|x|] == xs[0] && xs[0] in xs;
    }
  }

  lemma {:induction false} NamesOnly(gs: seq<WideGroup>)
    requires LegalWide(gs)
    ensures forall n :: n in Needed(gs) ==> n in AllNames(gs)
    ensures forall n :: n in NeededRead(gs) ==> n in AllNames(gs)
  {
    if gs != [] {
      assert LegalWideGroup(gs[0]);
      NamesOnly(gs[1..]);
    }
  }

  lemma ConcatApart(first: seq<string>, second: seq<string>)
    requires NoRepeats(first + second)
    ensures NoRepeats(second) && forall n :: n in first ==> n !in second
  {
    var all := first + second;
    forall i, j | 0 <= i < j < |second| ensures second[i] != second[j] {
      assert all[|first| + i] == second[i] && all[|first| + j] == second[j];
    }
    forall i, j | 0 <= i < |first| && 0 <= j < |second| ensures first[i] != second[j] {
      assert all[i] == first[i] && all[|first| + j] == second[j];
    }
  }

  lemma NamesApart(gs: seq<WideGroup>)
    requires gs != [] && NoRepeats(AllNames(gs))
    ensures NoRepeats(AllNames(gs[1..]))
    ensures forall n :: n in gs[0].names ==> n !in AllNames(gs[1..])
  {
    ConcatApart(gs[0].names, AllNames(gs[1..]));
  }

  lemma {:induction false} NeededReadIff(gs: seq<WideGroup>)
    requires LegalWide(gs) && NoRepeats(AllNames(gs))
    ensures NeededRead(gs) == Needed(gs) <==> AllFaithful(gs)
  {
    if gs != [] {
      var g, rest := gs[0], gs[1..];
      assert LegalWideGroup(g);
      NamesApart(gs);
      NeededReadIff(rest);
      NamesOnly(rest);
      GroupIsFaithfulIff(g, rest);
      assert [g] + rest == gs;
      PartsEqualIff(if IsPointerType(Carried(gs)) then [] else Survivors(g), if g.Pointer() then [] else g.names,
                    NeededRead(rest), Needed(rest), g.names, AllNames(rest));
    }
  }

  /** The reader enforces what it should, for any grouping of distinct names, exactly
      when every type of several tokens is a pointer's, the bare names of such a group
      meet a pointer on their right, and dropping does not leave a lone string. */
  lemma EnforcesIntentIff(gs: seq<WideGroup>)
    requires LegalWide(gs) && NoRepeats(AllNames(gs))
    ensures Recovered(gs) == Intended(gs) <==>
      OnlyPointersAreWide(gs) && BorrowersMeetPointers(gs) && !LeavesLoneString(gs)
  {
    IntentByReadIff(gs);
    NeededReadIff(gs);
    FaithfulMeans(gs);
  }

  // ------------------------------------------------------------- without grouping

  ghost predicate Ungrouped(gs: seq<WideGroup>) {
    forall i :: 0 <= i < |gs| ==> gs[i].Single()
  }

  /** Without grouping, a needed parameter of several tokens is a needed one lost. */
  lemma {:induction false} NothingLostIff(gs: seq<WideGroup>)
    requires LegalWide(gs) && Ungrouped(gs)
    ensures |NeededRead(gs)| <= |Needed(gs)|
    ensures |NeededRead(gs)| == |Needed(gs)| <==> OnlyPointersAreWide(gs)
    ensures NeededRead(gs) == Needed(gs) <==> OnlyPointersAreWide(gs)
  {
    if gs != [] {
      assert LegalWideGroup(gs[0]);
      NothingLostIff(gs[1..]);
      assert OnlyPointersAreWide(gs) <==>
        (gs[0].Plain() || gs[0].Pointer()) && OnlyPointersAreWide(gs[1..]);
    }
  }

  /** With every parameter written on its own, the names need not be distinct. */
  lemma UngroupedIff(gs: seq<WideGroup>)
    requires LegalWide(gs) && Ungrouped(gs)
    ensures Recovered(gs) == Intended(gs) <==> OnlyPointersAreWide(gs) && !LeavesLoneString(gs)
  {
    IntentByReadIff(gs);
    NothingLostIff(gs);
  }

  // ------------------------------------------------------------- two inputs that fail

  /** A channel: its parameter is never asked for. */
  lemma ChannelIsForgotten(key: string, ch: string)
    requires IsToken(key) && IsToken(ch)
    ensures var gs := [WideGroup([key], ["string"]), WideGroup([ch], ["chan", "int"])];
      LegalWide(gs) && Recovered(gs) != Intended(gs)
  {
    var typ := ["chan", "int"];
    var gs := [WideGroup([key], ["string"]), WideGroup([ch], typ)];
    assert typ[0][0] == 'c';
    assert !gs[1].Plain() && !gs[1].Pointer();
    assert !OnlyPointersAreWide(gs);
    UngroupedIff(gs);
  }

  /** `a, b *chan int, c string`: the optional `a` borrows the string type of `c` and
      is asked for. */
  lemma OptionalIsDemanded(a: string, b: string, c: string)
    requires IsToken(a) && IsToken(b) && IsToken(c)
    ensures var gs := [WideGroup([a, b], ["*chan", "int"]), WideGroup([c], ["string"])];
      LegalWide(gs) && Recovered(gs) == [a, c] && Intended(gs) == [c]
  {
    var typ := ["*chan", "int"];
    var g, last := WideGroup([a, b], typ), WideGroup([c], ["string"]);
    assert typ[0][0] == '*' && "*" <= typ[0];
    assert IsToken(typ[0]) && IsToken(typ[1]);
    assert LegalWideGroup(g) && LegalWideGroup(last);
    StringGroupIsNeeded(last, c);
    assert [g, last][1..] == [last];
    assert Carried([g, last]) == Carried([last]);
    assert Survivors(g) == [a];
    ReadsWide([g, last]);
    RequiredIs([g, last]);
    LoneReadIff([g, last]);
    assert !g.Single();
  }

  lemma StringGroupIsNeeded(last: WideGroup, c: string)
    requires last == WideGroup([c], ["string"]) && IsToken(c)
    ensures LegalWide([last]) && Needed([last]) == [c] && NeededRead([last]) == [c]
    ensures Carried([last]) == Some("string") && !IsPointerType(Carried([last]))
  {
    assert last.typ[0][0] == 's' && !last.Pointer();
    assert [last][1..] == [];
    assert Needed([]) == [] && [c] + Needed([]) == [c];
    assert LegalWideGroup(last);
    assert NeededRead([]) == [] && [c] + NeededRead([]) == [c];
  }
}
