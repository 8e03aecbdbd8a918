/**
  What the attributes of a definition file mean after processing: which
  characters of a list attribute are kept, what its items are, and what the
  type names stand for (uavtalk/definitions.go).
 */
module SchemaLaws {
  import opened Outcomes
  import opened Schema

  // ------------------------------------------------------------ list attributes

  /** A character of a list attribute that stays: no line break, no tab, no space right behind a comma. */
  predicate Kept(s: string, i: nat)
    requires i < |s|
  {
    s[i] != '\n' && s[i] != '\t' && !(s[i] == ' ' && i > 0 && s[i - 1] == ',')
  }

  /** The characters that stay from position `i` on, in their order. */
  function KeptFrom(s: string, i: nat): string
    requires i <= |s|
    decreases |s| - i
  {
    if i == |s| then "" else (if Kept(s, i) then [s[i]] else "") + KeptFrom(s, i + 1)
  }

  /** Without line breaks and tabs. */
  function Clean(s: string): string {
    Without(Without(s, '\n'), '\t')
  }

  lemma CleanFirst(c: char, s: string)
    ensures Clean([c] + s) == if c == '\n' || c == '\t' then Clean(s) else [c] + Clean(s)
  {
    WithoutFirst(c, s, '\n');
    WithoutFirst(c, Without(s, '\n'), '\t');
  }

  lemma WithoutFirst(c: char, s: string, d: char)
    ensures Without([c] + s, d) == if c == d then Without(s, d) else [c] + Without(s, d)
  {
    assert ([c] + s)[1..] == s;
  }

  lemma KeptStep(s: string, i: nat)
    requires i < |s|
    ensures KeptFrom(s, i) == if Kept(s, i) then [s[i]] + KeptFrom(s, i + 1) else KeptFrom(s, i + 1)
  {
  }

  lemma ReplacedFrom(s: string, i: nat)
    requires i <= |s|
    ensures ReplaceCommaSpace(s[i..])
         == if i == |s| then ""
            else if i + 1 < |s| && s[i] == ',' && s[i + 1] == ' ' then "," + ReplaceCommaSpace(s[i + 2..])
            else [s[i]] + ReplaceCommaSpace(s[i + 1..])
  {
    if i < |s| {
      assert s[i..][1..] == s[i + 1..];
      assert i + 1 < |s| ==> s[i..][2..] == s[i + 2..];
    }
  }

  lemma {:induction false} CleanReplaced(s: string, i: nat)
    requires i <= |s| && !(0 < i < |s| && s[i - 1] == ',' && s[i] == ' ')
    ensures Clean(ReplaceCommaSpace(s[i..])) == KeptFrom(s, i)
    decreases |s| - i
  {
    ReplacedFrom(s, i);
    if i < |s| {
      KeptStep(s, i);
      hide Clean, ReplaceCommaSpace, KeptFrom;
      if i + 1 < |s| && s[i] == ',' && s[i + 1] == ' ' {
        KeptStep(s, i + 1);
        assert Kept(s, i) && !Kept(s, i + 1);
        hide Kept;
        CleanFirst(',', ReplaceCommaSpace(s[i + 2..]));
        CleanReplaced(s, i + 2);
      } else {
        assert Kept(s, i) <==> s[i] != '\n' && s[i] != '\t';
        hide Kept;
        CleanFirst(s[i], ReplaceCommaSpace(s[i + 1..]));
        CleanReplaced(s, i + 1);
      }
    }
  }

  /** Sanitizing keeps exactly these characters, in their order. */
  lemma SanitizeKeeps(s: string)
    ensures SanitizeListString(s) == KeptFrom(s, 0)
  {
    assert s[0..] == s;
    CleanReplaced(s, 0);
  }

  lemma SplitComma(s: string)
    ensures SplitList("," + s) == [""] + SplitList(s)
  {
    assert ("," + s)[1..] == s;
  }

  lemma {:induction false} SplitPrefix(item: string, s: string)
    requires ',' !in item
    ensures SplitList(item + s) == [item + SplitList(s)[0]] + SplitList(s)[1..]
  {
    if item == "" {
      assert item + s == s && item + SplitList(s)[0] == SplitList(s)[0];
    } else {
      assert (item + s)[1..] == item[1..] + s;
      SplitPrefix(item[1..], s);
      assert [item[0]] + (item[1..] + SplitList(s)[0]) == item + SplitList(s)[0];
    }
  }

  /** Splitting joined items gives the items back, so a list has no other items. */
  lemma {:induction false} JoinSplits(items: seq<string>)
    requires |items| > 0 && NoCommas(items)
    ensures SplitList(Joined(items)) == items
  {
    if |items| == 1 {
      SplitPrefix(items[0], "");
      assert items[0] + "" == items[0];
    } else {
      var (item, rest) := (items[0], items[1..]);
      var tail := Joined(rest);
      assert Joined(items) == item + ("," + tail);
      JoinSplits(rest);
      hide SplitList, Joined;
      SplitComma(tail);
      SplitPrefix(item, "," + tail);
      assert item + "" == item && ([""] + rest)[1..] == rest;
    }
  }

  /** The items are those of the attribute, where the field has it; otherwise those listed one by one. */
  predicate ItemsOf(items: seq<string>, attribute: string, listed: seq<string>) {
    if attribute == "" then items == listed
    else |items| > 0 && NoCommas(items) && Joined(items) == KeptFrom(attribute, 0)
  }

  lemma ItemsFixed(a: seq<string>, b: seq<string>, attribute: string, listed: seq<string>)
    requires ItemsOf(a, attribute, listed) && ItemsOf(b, attribute, listed)
    ensures a == b
  {
    if attribute != "" {
      JoinSplits(a);
      JoinSplits(b);
    }
  }

  lemma PreparedLists(f: FieldDefinition)
    ensures ItemsOf(Prepared(f).options, f.optionsAttr, f.options)
    ensures ItemsOf(Prepared(f).elementNames, f.elementNamesAttr, f.elementNames)
    ensures Prepared(f).elementNames != [] ==> Prepared(f).elements == |Prepared(f).elementNames|
    ensures Prepared(f).elementNames == [] ==> Prepared(f).elements == if f.elements == 0 then 1 else f.elements
  {
    hide SplitList, SanitizeListString, KeptFrom, Joined, NoCommas, FieldTypeForString;
    SanitizeKeeps(f.optionsAttr);
    SanitizeKeeps(f.elementNamesAttr);
  }

  /**
    A processed field has the options and element names of the field that gives
    it its shape, read from its attributes, as many elements as names, and its
    type.
   */
  lemma ProcessedLists(fields: seq<FieldDefinition>, k: nat)
    requires Parsed(fields) && TypesKnown(fields) && TargetsExist(fields) && k < |fields| && Resolves(fields, k)
    ensures var (p, r) := (Processed(fields)[k], fields[Root(fields, k)]);
            && p.name == fields[k].name && p.typeInfo == FieldTypeForString(r.typeName)
            && ItemsOf(p.options, r.optionsAttr, r.options)
            && ItemsOf(p.elementNames, r.elementNamesAttr, r.elementNames)
            && p.elements == if p.elementNames != [] then |p.elementNames|
                             else if r.elements == 0 then 1 else r.elements
  {
    hide Processed, Root, Resolves, TypesKnown, TargetsExist, ItemsOf, SplitList, SanitizeListString;
    hide FieldTypeForString;
    FieldProcessResolves(fields, k);
    PreparedLists(fields[Root(fields, k)]);
  }

  // ----------------------------------------------------------------- field types

  /** The eight type names, with the index that goes into the object ID and the size on the wire. */
  lemma FieldTypeTable(name: string, index: nat, size: nat)
    ensures (FieldTypeForString(name).Some? && FieldTypeForString(name).value.Index() == index
             && FieldTypeForString(name).value.Size() == size)
       <==> (name, index, size) in {("int8", 0, 1), ("int16", 1, 2), ("int32", 2, 4), ("uint8", 3, 1),
                                    ("uint16", 4, 2), ("uint32", 5, 4), ("float", 6, 4), ("enum", 7, 1)}
  {
  }
}
