/** Loading the colour catalogue: header aliases, field normalisation, the name filter and de-duplication. */
module Catalog {
  import opened Wrappers
  import opened Text
  import opened Sentences
  import opened Sampling
  import Rgb

  /** One CSV record, header name to cell text. */
  type Row = map<string, string>

  /** The header aliases tried for each field, in order. */
  const NameKeys: seq<string> := ["色名", "name", "Name", "色の名前"]
  const FamilyKeys: seq<string> := ["系統色名", "系統", "family"]
  const MunsellKeys: seq<string> := ["マンセル値", "マンセル", "Munsell"]
  const PccsKeys: seq<string> := ["pccs", "PCCS", "PCCSトーン", "PCCS tone", "トーン"]
  const RgbKeys: seq<string> := ["RGB", "rgb", "カラーコード", "color", "Color"]
  const DescriptionKeys: seq<string> := ["説明", "解説", "description", "Description", "由来"]

  /** A normalised catalogue entry. */
  datatype Item = Item(
    name: string,
    family: string,
    munsell: string,
    pccs: string,
    rgb: Option<Rgb.Rgb>,
    description: string,
    sentences: seq<string>)

  /** Loading fails when no row has a name. */
  datatype LoadError = NoValidRows

  /** `mapKey(row, keys)`: the value under the first alias present in the row, or `""`. */
  function MapKey(row: Row, keys: seq<string>): (r: string)
    ensures (forall k :: k in keys ==> k !in row) ==> r == ""
    ensures forall i :: 0 <= i < |keys| && keys[i] in row && (forall j :: 0 <= j < i ==> keys[j] !in row) ==>
              r == row[keys[i]]
  {
    if keys == [] then ""
    else if keys[0] in row then row[keys[0]]
    else
      assert forall i :: 0 < i < |keys| ==> keys[i] == keys[1..][i - 1];
      MapKey(row, keys[1..])
  }

  /** The record built for one row: the trimmed cells, the parsed colour and the sentences of the description. */
  function Normalize(row: Row): Item {
    Build(MapKey(row, NameKeys), MapKey(row, FamilyKeys), MapKey(row, MunsellKeys), MapKey(row, PccsKeys),
          MapKey(row, RgbKeys), MapKey(row, DescriptionKeys))
  }

  /** The object literal of the row mapping, from the six looked-up cells. */
  function Build(name: string, family: string, munsell: string, pccs: string, rgbRaw: string, description: string): Item {
    Item(Trim(name), Trim(family), Trim(munsell), Trim(pccs), Rgb.ParseRGB(rgbRaw), Trim(description),
         SplitSentences(description))
  }

  /** Every text field of a built record is trimmed and keeps its cell's characters; the sentences are at most
      five trimmed non-empty parts, none exactly when the description is blank; the name is empty exactly when
      its cell is blank. */
  lemma BuildFields(name: string, family: string, munsell: string, pccs: string, rgbRaw: string, description: string)
    ensures var it := Build(name, family, munsell, pccs, rgbRaw, description);
      && Trimmed(it.name) && Trimmed(it.family) && Trimmed(it.munsell) && Trimmed(it.pccs)
      && Trimmed(it.description)
      && StripSpaces(it.name) == StripSpaces(name)
      && StripSpaces(it.family) == StripSpaces(family)
      && StripSpaces(it.munsell) == StripSpaces(munsell)
      && StripSpaces(it.pccs) == StripSpaces(pccs)
      && StripSpaces(it.description) == StripSpaces(description)
      && (it.name == [] <==> AllSpaces(name))
      && |it.sentences| <= MaxSentences
      && (forall k :: 0 <= k < |it.sentences| ==> it.sentences[k] != [] && Trimmed(it.sentences[k]))
      && (it.sentences == [] <==> AllSpaces(description))
  {
    TrimKeepsText(name);
    TrimKeepsText(family);
    TrimKeepsText(munsell);
    TrimKeepsText(pccs);
    TrimKeepsText(description);
    TrimEmpty(name);
    SplitSentencesShape(description);
    SplitSentencesBlank(description);
  }

  /** A normalised row's name is trimmed, and empty exactly when the name cell is blank or missing. */
  lemma NormalizeName(row: Row)
    ensures Trimmed(Normalize(row).name)
    ensures Normalize(row).name == [] <==> AllSpaces(MapKey(row, NameKeys))
  {
    BuildFields(MapKey(row, NameKeys), MapKey(row, FamilyKeys), MapKey(row, MunsellKeys), MapKey(row, PccsKeys),
                MapKey(row, RgbKeys), MapKey(row, DescriptionKeys));
  }

  /** `parsed.map(...)`. */
  function NormalizeAll(rows: seq<Row>): (r: seq<Item>)
    ensures |r| == |rows| && forall i :: 0 <= i < |rows| ==> r[i] == Normalize(rows[i])
  {
    seq(|rows|, i requires 0 <= i < |rows| => Normalize(rows[i]))
  }

  /** The names of the items, in order. */
  function Names(items: seq<Item>): (r: seq<string>)
    ensures |r| == |items| && forall i :: 0 <= i < |items| ==> r[i] == items[i].name
  {
    seq(|items|, i requires 0 <= i < |items| => items[i].name)
  }

  /** `.filter(it => it.name)`: the items whose name is non-empty, in order. */
  function WithName(items: seq<Item>): (r: seq<Item>)
    ensures forall it :: it in r <==> it in items && it.name != []
  {
    if items == [] then []
    else
      assert items == [items[0]] + items[1..];
      if items[0].name == [] then WithName(items[1..]) else [items[0]] + WithName(items[1..])
  }

  /** The name filter keeps every named item exactly as often as it occurs. */
  lemma {:induction false} WithNameCounts(items: seq<Item>)
    ensures forall it: Item :: it.name != [] ==> multiset(WithName(items))[it] == multiset(items)[it]
  {
    if items != [] {
      WithNameCounts(items[1..]);
      assert items == [items[0]] + items[1..];
    }
  }

  /** The position of the first item named `x`, or `|items|` when there is none: a reference for the order of
      first occurrences. */
  function FirstPos(items: seq<Item>, x: string): (r: nat)
    ensures r <= |items|
    ensures r < |items| ==> items[r].name == x
    ensures forall j :: 0 <= j < r ==> items[j].name != x
  {
    if items == [] then 0
    else if items[0].name == x then 0
    else 1 + FirstPos(items[1..], x)
  }

  /** The name filter keeps the order of first occurrences between non-empty names. */
  lemma {:induction false} WithNameRank(items: seq<Item>, y: string, z: string)
    requires y != [] && z != []
    requires FirstPos(WithName(items), y) < FirstPos(WithName(items), z)
    ensures FirstPos(items, y) < FirstPos(items, z)
  {
    if items[0].name == [] {
      WithNameRank(items[1..], y, z);
    } else if y != items[0].name {
      WithNameRank(items[1..], y, z);
    }
  }

  /** The de-duplicating filter with `seen` already holding the given names: an item is kept when its name is new. */
  function KeepFirst(items: seq<Item>, seen: set<string>): seq<Item> {
    if items == [] then []
    else if items[0].name in seen then KeepFirst(items[1..], seen)
    else [items[0]] + KeepFirst(items[1..], seen + {items[0].name})
  }

  /** Every kept item comes from the input and has a name not seen before. */
  lemma {:induction false} KeepFirstFrom(items: seq<Item>, seen: set<string>)
    ensures forall it :: it in KeepFirst(items, seen) ==> it in items && it.name !in seen
  {
    if items != [] {
      if items[0].name in seen {
        KeepFirstFrom(items[1..], seen);
      } else {
        KeepFirstFrom(items[1..], seen + {items[0].name});
      }
    }
  }

  /** The first item named `x`, if any: an independent description of which duplicate survives. */
  function FirstNamed(items: seq<Item>, x: string): (r: Option<Item>)
    ensures r.Some? ==> r.value in items && r.value.name == x
    ensures r.None? <==> x !in Names(items)
  {
    if items == [] then None
    else if items[0].name == x then Some(items[0])
    else
      assert forall i :: 0 < i < |items| ==> Names(items)[i] == Names(items[1..])[i - 1];
      FirstNamed(items[1..], x)
  }

  /** `a` is `b` with some elements dropped, the rest in their original order. */
  predicate Sub(a: seq<Item>, b: seq<Item>)
    decreases |b|
  {
    if b == [] then a == []
    else (a != [] && a[0] == b[0] && Sub(a[1..], b[1..])) || Sub(a, b[1..])
  }

  lemma {:induction false} SubTrans(a: seq<Item>, b: seq<Item>, c: seq<Item>)
    requires Sub(a, b) && Sub(b, c)
    ensures Sub(a, c)
    decreases |c|
  {
    if c != [] {
      if Sub(b, c[1..]) {
        SubTrans(a, b, c[1..]);
      } else {
        assert b != [] && b[0] == c[0] && Sub(b[1..], c[1..]);
        if a != [] && a[0] == b[0] && Sub(a[1..], b[1..]) {
          SubTrans(a[1..], b[1..], c[1..]);
        } else {
          SubTrans(a, b[1..], c[1..]);
        }
      }
    }
  }

  /** The name filter keeps the order of the items it keeps. */
  lemma {:induction false} WithNameOrder(items: seq<Item>)
    ensures Sub(WithName(items), items)
  {
    if items != [] {
      WithNameOrder(items[1..]);
    }
  }

  /** Names the name filter keeps are found at the same first item. */
  lemma {:induction false} WithNameFirst(items: seq<Item>, x: string)
    requires x != []
    ensures FirstNamed(WithName(items), x) == FirstNamed(items, x)
  {
    if items != [] {
      WithNameFirst(items[1..], x);
    }
  }

  /** De-duplication keeps the order of the items it keeps. */
  lemma {:induction false} KeepFirstOrder(items: seq<Item>, seen: set<string>)
    ensures Sub(KeepFirst(items, seen), items)
  {
    if items != [] {
      if items[0].name in seen {
        KeepFirstOrder(items[1..], seen);
      } else {
        KeepFirstOrder(items[1..], seen + {items[0].name});
      }
    }
  }

  /** De-duplication leaves no name twice. */
  lemma {:induction false} KeepFirstDistinct(items: seq<Item>, seen: set<string>)
    ensures Distinct(Names(KeepFirst(items, seen)))
  {
    if items != [] && items[0].name !in seen {
      var x := items[0].name;
      KeepFirstDistinct(items[1..], seen + {x});
      KeepFirstFrom(items[1..], seen + {x});
      var r := KeepFirst(items, seen);
      var rest := KeepFirst(items[1..], seen + {x});
      assert r == [items[0]] + rest;
      forall i, j | 0 <= i < j < |r| ensures Names(r)[i] != Names(r)[j] {
        assert r[j] == rest[j - 1];
        if 0 < i {
          assert r[i] == rest[i - 1];
          assert Names(rest)[i - 1] != Names(rest)[j - 1];
        }
      }
    } else if items != [] {
      KeepFirstDistinct(items[1..], seen);
    }
  }

  /** A name not yet seen survives de-duplication. */
  lemma {:induction false} KeepFirstCovers(items: seq<Item>, seen: set<string>, x: string)
    requires x in Names(items) && x !in seen
    ensures x in Names(KeepFirst(items, seen))
  {
    var x0 := items[0].name;
    var r := KeepFirst(items, seen);
    if x == x0 {
      assert r[0] == items[0];
      assert Names(r)[0] == x;
    } else {
      var i :| 0 <= i < |items| && Names(items)[i] == x;
      assert Names(items[1..])[i - 1] == x;
      var seen' := if x0 in seen then seen else seen + {x0};
      KeepFirstCovers(items[1..], seen', x);
      var rest := KeepFirst(items[1..], seen');
      var m :| 0 <= m < |rest| && Names(rest)[m] == x;
      if x0 !in seen {
        assert r == [items[0]] + rest;
        assert r[m + 1] == rest[m];
        assert Names(r)[m + 1] == x;
      }
    }
  }

  /** Survivors come in the order in which their names first occur. */
  lemma {:induction false} KeepFirstRank(items: seq<Item>, seen: set<string>)
    ensures forall a, b :: 0 <= a < b < |KeepFirst(items, seen)| ==>
              FirstPos(items, KeepFirst(items, seen)[a].name) < FirstPos(items, KeepFirst(items, seen)[b].name)
  {
    if items != [] {
      var x0 := items[0].name;
      var seen' := if x0 in seen then seen else seen + {x0};
      var rest := KeepFirst(items[1..], seen');
      KeepFirstRank(items[1..], seen');
      KeepFirstFrom(items[1..], seen');
      var r := KeepFirst(items, seen);
      assert forall b :: 0 <= b < |rest| ==> rest[b] in rest;
      assert forall b :: 0 <= b < |rest| ==> FirstPos(items, rest[b].name) == 1 + FirstPos(items[1..], rest[b].name);
      if x0 !in seen {
        assert r == [items[0]] + rest;
        assert forall b :: 0 < b < |r| ==> r[b] == rest[b - 1];
      }
    }
  }

  /** Every surviving item is the first item carrying its name. */
  lemma {:induction false} KeepFirstFirst(items: seq<Item>, seen: set<string>)
    ensures forall it :: it in KeepFirst(items, seen) ==> FirstNamed(items, it.name) == Some(it)
  {
    if items != [] {
      var x0 := items[0].name;
      if x0 in seen {
        KeepFirstFirst(items[1..], seen);
        KeepFirstFrom(items[1..], seen);
      } else {
        KeepFirstFirst(items[1..], seen + {x0});
        KeepFirstFrom(items[1..], seen + {x0});
      }
    }
  }

  /** The items that survive loading `rows`. */
  function Survivors(rows: seq<Row>): seq<Item> {
    KeepFirst(WithName(NormalizeAll(rows)), {})
  }

  /** The `seen`-set loop of the de-duplicating filter. */
  method Dedup(items: seq<Item>) returns (r: seq<Item>)
    ensures r == KeepFirst(items, {})
  {
    var seen: set<string> := {};
    r := [];
    var i := 0;
    while i < |items|
      invariant 0 <= i <= |items|
      invariant r + KeepFirst(items[i..], seen) == KeepFirst(items, {})
    {
      assert items[i..][1..] == items[i + 1..];
      if items[i].name !in seen {
        assert KeepFirst(items[i..], seen) == [items[i]] + KeepFirst(items[i + 1..], seen + {items[i].name});
        r := r + [items[i]];
        seen := seen + {items[i].name};
      }
      i := i + 1;
    }
    assert items[i..] == [];
  }

  /** `loadAll` after the rows are read: normalise, drop nameless rows, drop repeated names, fail when none is left. */
  method Load(rows: seq<Row>) returns (r: Result<seq<Item>, LoadError>)
    ensures r.Failure? <==> forall i :: 0 <= i < |rows| ==> AllSpaces(MapKey(rows[i], NameKeys))
    ensures r.Success? ==> r.value == Survivors(rows) && r.value != []
    ensures r.Success? ==> Distinct(Names(r.value))
    ensures r.Success? ==> forall it :: it in r.value ==> it.name != [] && Trimmed(it.name)
    ensures r.Success? ==> Sub(r.value, NormalizeAll(rows))
    ensures r.Success? ==> forall it :: it in r.value ==> FirstNamed(NormalizeAll(rows), it.name) == Some(it)
    ensures r.Success? ==> forall i :: 0 <= i < |rows| && !AllSpaces(MapKey(rows[i], NameKeys)) ==>
              NormalizeAll(rows)[i].name in Names(r.value)
    ensures r.Success? ==> SurvivorOrder(r.value, NormalizeAll(rows))
  {
    var all := NormalizeAll(rows);
    var named := WithName(all);
    var items := Dedup(named);
    LoadedShape(rows);
    if items == [] {
      r := Failure(NoValidRows);
    } else {
      r := Success(items);
    }
  }

  /** When every name cell is blank or missing, nothing survives. */
  lemma BlankRowsVanish(rows: seq<Row>)
    requires forall i :: 0 <= i < |rows| ==> AllSpaces(MapKey(rows[i], NameKeys))
    ensures Survivors(rows) == []
  {
    var all := NormalizeAll(rows);
    var named := WithName(all);
    if named != [] {
      assert named[0] in all;
      var i :| 0 <= i < |all| && all[i] == named[0];
      NormalizeName(rows[i]);
    }
  }

  /** A row with a name leaves an item of that name among the survivors. */
  lemma NamedRowSurvives(rows: seq<Row>, i: nat)
    requires i < |rows| && !AllSpaces(MapKey(rows[i], NameKeys))
    ensures NormalizeAll(rows)[i].name in Names(Survivors(rows))
  {
    var all := NormalizeAll(rows);
    var named := WithName(all);
    NormalizeName(rows[i]);
    assert all[i] in named;
    var k :| 0 <= k < |named| && named[k] == all[i];
    assert Names(named)[k] == all[i].name;
    KeepFirstCovers(named, {}, all[i].name);
  }

  /** Nothing survives exactly when every row's name cell is blank or missing. */
  lemma SurvivorsEmpty(rows: seq<Row>)
    ensures Survivors(rows) == [] <==> forall i :: 0 <= i < |rows| ==> AllSpaces(MapKey(rows[i], NameKeys))
  {
    if forall i :: 0 <= i < |rows| ==> AllSpaces(MapKey(rows[i], NameKeys)) {
      BlankRowsVanish(rows);
    } else {
      var i :| 0 <= i < |rows| && !AllSpaces(MapKey(rows[i], NameKeys));
      NamedRowSurvives(rows, i);
    }
  }

  /** Every survivor has a non-empty trimmed name and is the first item of its name among the normalised rows. */
  lemma SurvivorsFirst(rows: seq<Row>, it: Item)
    requires it in Survivors(rows)
    ensures it.name != [] && Trimmed(it.name)
    ensures FirstNamed(NormalizeAll(rows), it.name) == Some(it)
  {
    var all := NormalizeAll(rows);
    var named := WithName(all);
    KeepFirstFrom(named, {});
    assert it in named;
    var i :| 0 <= i < |rows| && all[i] == it;
    NormalizeName(rows[i]);
    KeepFirstFirst(named, {});
    WithNameFirst(all, it.name);
  }

  /** What `Load` promises about `Survivors`. */
  lemma LoadedShape(rows: seq<Row>)
    ensures Survivors(rows) == [] <==> forall i :: 0 <= i < |rows| ==> AllSpaces(MapKey(rows[i], NameKeys))
    ensures Distinct(Names(Survivors(rows)))
    ensures forall it :: it in Survivors(rows) ==> it.name != [] && Trimmed(it.name)
    ensures Sub(Survivors(rows), NormalizeAll(rows))
    ensures forall it :: it in Survivors(rows) ==> FirstNamed(NormalizeAll(rows), it.name) == Some(it)
    ensures forall i :: 0 <= i < |rows| && !AllSpaces(MapKey(rows[i], NameKeys)) ==>
              NormalizeAll(rows)[i].name in Names(Survivors(rows))
    ensures SurvivorOrder(Survivors(rows), NormalizeAll(rows))
  {
    var all := NormalizeAll(rows);
    var named := WithName(all);
    SurvivorsEmpty(rows);
    KeepFirstDistinct(named, {});
    forall it | it in Survivors(rows)
      ensures it.name != [] && Trimmed(it.name) && FirstNamed(all, it.name) == Some(it)
    {
      SurvivorsFirst(rows, it);
    }
    KeepFirstOrder(named, {});
    WithNameOrder(all);
    SubTrans(Survivors(rows), named, all);
    forall i | 0 <= i < |rows| && !AllSpaces(MapKey(rows[i], NameKeys))
      ensures all[i].name in Names(Survivors(rows))
    {
      NamedRowSurvives(rows, i);
    }
    SurvivorsRank(rows);
  }

  /** The survivors appear in the order in which their names first occur among the items. */
  predicate SurvivorOrder(r: seq<Item>, items: seq<Item>) {
    forall a, b :: 0 <= a < b < |r| ==> FirstPos(items, r[a].name) < FirstPos(items, r[b].name)
  }

  /** The survivors come in the order in which their names first occur among the normalised rows. */
  lemma SurvivorsRank(rows: seq<Row>)
    ensures SurvivorOrder(Survivors(rows), NormalizeAll(rows))
  {
    var all := NormalizeAll(rows);
    var named := WithName(all);
    var r := Survivors(rows);
    KeepFirstRank(named, {});
    KeepFirstFrom(named, {});
    forall a, b | 0 <= a < b < |r| ensures FirstPos(all, r[a].name) < FirstPos(all, r[b].name) {
      assert r[a] in r && r[b] in r;
      WithNameRank(all, r[a].name, r[b].name);
    }
  }
}
