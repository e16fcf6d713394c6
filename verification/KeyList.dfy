/**
 * The comma-separated lists of src/helpers_core/config/settings.py: FERNET_KEYS and
 * ADMIN_TG_IDS.
 */
module KeyList {
  import opened Wrappers

  import opened RedisKeys

  // str.isspace() on one character.
  predicate IsSpace(ch: char) {
    || '\t' <= ch <= '\r'
    || '\U{1c}' <= ch <= ' '
    || ch in {'\U{85}', '\U{a0}', '\U{1680}', '\U{2028}', '\U{2029}', '\U{202f}', '\U{205f}', '\U{3000}'}
    || '\U{2000}' <= ch <= '\U{200a}'
  }

  // One more character in front of an already split text.
  function Lead(ch: char, segments: seq<string>): (longer: seq<string>)
    requires |segments| >= 1
    ensures |longer| >= 1
  {
    if ch == ',' then [""] + segments else [[ch] + segments[0]] + segments[1..]
  }

  // str.split(",")
  function Split(s: string): (segments: seq<string>)
    ensures |segments| >= 1
  {
    if s == "" then [""] else Lead(s[0], Split(s[1..]))
  }

  function Join(segments: seq<string>): string {
    if segments == [] then ""
    else if |segments| == 1 then segments[0]
    else segments[0] + "," + Join(segments[1..])
  }

  function StripLeft(s: string): string { if s != "" && IsSpace(s[0]) then StripLeft(s[1..]) else s }

  function StripRight(s: string): string {
    if s != "" && IsSpace(s[|s| - 1]) then StripRight(s[..|s| - 1]) else s
  }

  // str.strip()
  function Strip(s: string): string { StripRight(StripLeft(s)) }

  // What a reader finds in each segment, in order.
  function Gather<T>(find: string -> seq<T>, segments: seq<string>): seq<T> {
    if segments == [] then [] else find(segments[0]) + Gather(find, segments[1..])
  }

  // The key of one segment: its stripped text, unless that is empty.
  function KeyIn(segment: string): seq<string> { if Strip(segment) == "" then [] else [Strip(segment)] }

  function KeysOf(segments: seq<string>): seq<string> { Gather(KeyIn, segments) }

  // SecuritySettings.keys
  function Keys(raw: string): seq<string> { KeysOf(Split(raw)) }

  // SecuritySettings._non_empty
  predicate PassesValidator(raw: string) { Strip(raw) != "" }

  // ---------------------------------------------------------------- splitting

  lemma LeadAppend(ch: char, a: seq<string>, b: seq<string>)
    requires |a| >= 1
    ensures Lead(ch, a + b) == Lead(ch, a) + b
  {
    assert (a + b)[1..] == a[1..] + b;
  }

  lemma {:induction false} SplitAppend(a: string, b: string)
    ensures Split(a + "," + b) == Split(a) + Split(b)
  {
    if a == "" {
      assert ("" + "," + b)[1..] == b;
    } else {
      SplitAppend(a[1..], b);
      assert (a + "," + b)[1..] == a[1..] + "," + b;
      LeadAppend(a[0], Split(a[1..]), Split(b));
    }
  }

  lemma {:induction false} SplitPlain(s: string)
    requires ',' !in s
    ensures Split(s) == [s]
  {
    if s == "" {
    } else {
      assert s == [s[0]] + s[1..];
      SplitPlain(s[1..]);
    }
  }

  lemma {:induction false} SplitJoin(segments: seq<string>)
    requires segments != [] && forall i :: 0 <= i < |segments| ==> ',' !in segments[i]
    ensures Split(Join(segments)) == segments
  {
    if |segments| == 1 {
      SplitPlain(segments[0]);
    } else {
      SplitPlain(segments[0]);
      SplitJoin(segments[1..]);
      SplitAppend(segments[0], Join(segments[1..]));
    }
  }

  lemma AppendAssociates<T>(x: seq<T>, y: seq<T>, z: seq<T>)
    ensures x + (y + z) == (x + y) + z
  {}

  lemma {:induction false} GatherAppend<T>(find: string -> seq<T>, a: seq<string>, b: seq<string>)
    ensures Gather(find, a + b) == Gather(find, a) + Gather(find, b)
  {
    if a == [] {
      assert a + b == b;
    } else {
      GatherAppend(find, a[1..], b);
      assert (a + b)[1..] == a[1..] + b && (a + b)[0] == a[0];
      AppendAssociates(find(a[0]), Gather(find, a[1..]), Gather(find, b));
    }
  }

  // ---------------------------------------------------------------- the key list

  // Parsing turns comma into concatenation, for all strings.
  lemma KeysAppend(a: string, b: string)
    ensures Keys(a + "," + b) == Keys(a) + Keys(b)
  {
    SplitAppend(a, b);
    GatherAppend(KeyIn, Split(a), Split(b));
  }

  predicate AllSpace(s: string) { forall i :: 0 <= i < |s| ==> IsSpace(s[i]) }

  // A text that can stand in the list: no comma, and no white space around it.
  predicate IsKey(k: string) { k != "" && !IsSpace(k[0]) && !IsSpace(k[|k| - 1]) && ',' !in k }

  lemma {:induction false} StripLeftPad(pad: string, k: string)
    requires AllSpace(pad) && k != "" && !IsSpace(k[0])
    ensures StripLeft(pad + k) == k
  {
    if pad == "" {
      assert pad + k == k;
    } else {
      StripLeftPad(pad[1..], k);
      assert (pad + k)[1..] == pad[1..] + k;
    }
  }

  lemma {:induction false} StripRightPad(k: string, pad: string)
    requires AllSpace(pad) && k != "" && !IsSpace(k[|k| - 1])
    ensures StripRight(k + pad) == k
  {
    if pad == "" {
      assert k + pad == k;
    } else {
      StripRightPad(k, pad[..|pad| - 1]);
      assert (k + pad)[..|k + pad| - 1] == k + pad[..|pad| - 1];
    }
  }

  // An entry of the list with white space around it; a blank one has an empty key.
  datatype Padded = Padded(left: string, key: string, right: string) {
    function Text(): string { left + key + right }
    predicate Valid() { AllSpace(left) && (key == "" || IsKey(key)) && AllSpace(right) }
  }

  lemma PaddedKey(p: Padded)
    requires p.Valid()
    ensures Strip(p.Text()) == p.key && ',' !in p.Text()
  {
    assert !IsSpace(',');
    if p.key == "" {
      assert p.Text() == p.left + p.right;
      StripIsEmpty(p.Text());
    } else {
      assert p.Text() == p.left + (p.key + p.right);
      StripLeftPad(p.left, p.key + p.right);
      StripRightPad(p.key, p.right);
    }
  }

  predicate AllValid(ps: seq<Padded>) { forall i :: 0 <= i < |ps| ==> ps[i].Valid() }

  function Texts(ps: seq<Padded>): seq<string> { seq(|ps|, i requires 0 <= i < |ps| => ps[i].Text()) }

  // The keys of the entries that are not blank, in order.
  function KeysIn(ps: seq<Padded>): seq<string> {
    if ps == [] then [] else (if ps[0].key == "" then [] else [ps[0].key]) + KeysIn(ps[1..])
  }

  lemma {:induction false} GatherPadded(ps: seq<Padded>)
    requires AllValid(ps)
    ensures Gather(KeyIn, Texts(ps)) == KeysIn(ps)
  {
    if ps == [] {
    } else {
      GatherPadded(ps[1..]);
      PaddedKey(ps[0]);
      assert Texts(ps)[1..] == Texts(ps[1..]);
    }
  }

  lemma SplitTexts(ps: seq<Padded>)
    requires AllValid(ps) && ps != []
    ensures Split(Join(Texts(ps))) == Texts(ps)
  {
    forall i | 0 <= i < |ps| ensures ',' !in Texts(ps)[i] { PaddedKey(ps[i]); }
    SplitJoin(Texts(ps));
  }

  // Writing a list of keys, with any white space around them and any blank entries between them,
  // and parsing it back gives the same keys in the same order.
  lemma KeysRoundTrip(ps: seq<Padded>)
    requires AllValid(ps)
    ensures Keys(Join(Texts(ps))) == KeysIn(ps)
  {
    GatherPadded(ps);
    if ps == [] {
      assert KeysOf([""]) == [];
    } else {
      SplitTexts(ps);
    }
  }

  // The alphabet of a Fernet key (section 5 of RFC 4648), and the blanks one types.
  predicate IsKeyChar(ch: char) { 'A' <= ch <= 'Z' || 'a' <= ch <= 'z' || '0' <= ch <= '9' || ch in {'-', '_', '='} }

  predicate IsBlank(ch: char) { ch in {' ', '\t', '\n', '\r'} }

  predicate TypedEntry(p: Padded) {
    && (forall i :: 0 <= i < |p.left| ==> IsBlank(p.left[i]))
    && (forall i :: 0 <= i < |p.key| ==> IsKeyChar(p.key[i]))
    && (forall i :: 0 <= i < |p.right| ==> IsBlank(p.right[i]))
  }

  // Fernet keys separated by commas and any blanks, tabs and line ends are parsed to themselves.
  lemma TypedKeysRoundTrip(ps: seq<Padded>)
    requires forall i :: 0 <= i < |ps| ==> TypedEntry(ps[i])
    ensures Keys(Join(Texts(ps))) == KeysIn(ps)
  {
    forall i | 0 <= i < |ps| ensures ps[i].Valid() {
      TypedIsValid(ps[i]);
    }
    KeysRoundTrip(ps);
  }

  lemma TypedIsValid(p: Padded)
    requires TypedEntry(p)
    ensures p.Valid()
  {
    assert forall ch: char :: IsBlank(ch) ==> IsSpace(ch);
    assert forall ch: char :: IsKeyChar(ch) ==> !IsSpace(ch) && ch != ',';
  }

  // str.isspace() by code point.
  lemma SpacesByCodePoint(ch: char)
    ensures IsSpace(ch) <==>
              (ch as int) in {9, 10, 11, 12, 13, 28, 29, 30, 31, 32, 133, 160, 5760, 8192, 8193, 8194, 8195, 8196,
                              8197, 8198, 8199, 8200, 8201, 8202, 8232, 8233, 8239, 8287, 12288}
  {}

  // Rotation as documented: writing "new," in front of the variable prepends exactly that key.
  lemma PrependKey(k: string, raw: string)
    requires IsKey(k)
    ensures Keys(k + "," + raw) == [k] + Keys(raw)
  {
    KeysAppend(k, raw);
    SplitPlain(k);
    assert KeyIn(k) == [k] by {
      PaddedKey(Padded("", k, ""));
      assert Padded("", k, "").Text() == k;
    }
    assert KeysOf([k]) == KeyIn(k) + KeysOf([k][1..]);
  }

  lemma {:induction false} StripLeftIsEmpty(s: string)
    ensures StripLeft(s) == "" <==> AllSpace(s)
    ensures StripLeft(s) != "" ==> !IsSpace(StripLeft(s)[0])
  {
    if s == "" {
    } else {
      StripLeftIsEmpty(s[1..]);
      assert AllSpace(s) <==> IsSpace(s[0]) && AllSpace(s[1..]) by {
        if IsSpace(s[0]) && AllSpace(s[1..]) {
          assert forall i :: 0 < i < |s| ==> s[i] == s[1..][i - 1];
        }
        if AllSpace(s) {
          assert forall i :: 0 <= i < |s[1..]| ==> s[1..][i] == s[i + 1];
        }
      }
    }
  }

  lemma {:induction false} StripRightKeepsHead(s: string)
    requires s != "" && !IsSpace(s[0])
    ensures StripRight(s) != ""
  {
    if IsSpace(s[|s| - 1]) { StripRightKeepsHead(s[..|s| - 1]); }
  }

  lemma StripIsEmpty(s: string)
    ensures Strip(s) == "" <==> AllSpace(s)
  {
    StripLeftIsEmpty(s);
    if StripLeft(s) != "" { StripRightKeepsHead(StripLeft(s)); }
  }

  predicate OnlySpaceAndCommas(s: string) { forall i :: 0 <= i < |s| ==> IsSpace(s[i]) || s[i] == ',' }

  lemma {:induction false} NoKeysInSplit(s: string)
    ensures KeysOf(Split(s)) == [] <==> OnlySpaceAndCommas(s)
  {
    if s == "" {
      assert KeysOf([""]) == [];
    } else {
      NoKeysInSplit(s[1..]);
      var rest := Split(s[1..]);
      assert OnlySpaceAndCommas(s) <==> (IsSpace(s[0]) || s[0] == ',') && OnlySpaceAndCommas(s[1..]) by {
        assert forall i :: 0 < i < |s| ==> s[i] == s[1..][i - 1];
        assert forall i :: 0 <= i < |s[1..]| ==> s[1..][i] == s[i + 1];
      }
      if s[0] == ',' {
        assert ([""] + rest)[1..] == rest;
      } else {
        var first := [s[0]] + rest[0];
        assert ([first] + rest[1..])[1..] == rest[1..];
        StripIsEmpty(first);
        StripIsEmpty(rest[0]);
        assert first[0] == s[0] && first[1..] == rest[0];
        assert AllSpace(first) <==> IsSpace(s[0]) && AllSpace(rest[0]) by {
          assert forall i :: 0 < i < |first| ==> first[i] == rest[0][i - 1];
          assert forall i :: 0 <= i < |rest[0]| ==> rest[0][i] == first[i + 1];
        }
        assert rest == [rest[0]] + rest[1..];
      }
    }
  }

  // The validator promises a usable key list.  It keeps that promise exactly when some character
  // is neither white space nor a comma: "," passes it and yields no key at all.
  lemma ValidatorExactlyWhen(raw: string)
    ensures Keys(raw) == [] <==> OnlySpaceAndCommas(raw)
    ensures PassesValidator(raw) && Keys(raw) == [] <==> OnlySpaceAndCommas(raw) && ',' in raw
  {
    NoKeysInSplit(raw);
    StripIsEmpty(raw);
    if OnlySpaceAndCommas(raw) && ',' in raw {
      var i :| 0 <= i < |raw| && raw[i] == ',';
      assert !IsSpace(raw[i]);
    }
  }

  // ---------------------------------------------------------------- admin ids

  // int(text), None for ValueError.
  type IntParser = string -> Option<int>

  // The id of one segment: its stripped text as a number, unless it is blank or no number.
  function IdIn(parse: IntParser): string -> seq<int> {
    segment => if Strip(segment) != "" && parse(Strip(segment)).Some? then [parse(Strip(segment)).value] else []
  }

  function IdsOf(parse: IntParser, segments: seq<string>): seq<int> { Gather(IdIn(parse), segments) }

  // TelegramSettings.admin_ids
  method AdminIds(parse: IntParser, raw: string) returns (ids: seq<int>)
    ensures ids == IdsOf(parse, Split(raw))
  {
    ids := [];
    var segments := Split(raw);
    for i := 0 to |segments|
      invariant ids == IdsOf(parse, segments[..i])
    {
      assert segments[..i + 1] == segments[..i] + [segments[i]];
      GatherAppend(IdIn(parse), segments[..i], [segments[i]]);
      assert IdsOf(parse, [segments[i]]) == IdIn(parse)(segments[i]);
      var text := Strip(segments[i]);
      if text == "" {
        continue;
      }
      match parse(text) {
        case Some(id) => ids := ids + [id];
        case None =>
      }
    }
    assert segments[..|segments|] == segments;
  }

  // One entry that is blank or no number never affects the others.
  lemma AdminIdsAppend(parse: IntParser, a: string, b: string)
    ensures IdsOf(parse, Split(a + "," + b)) == IdsOf(parse, Split(a)) + IdsOf(parse, Split(b))
  {
    SplitAppend(a, b);
    GatherAppend(IdIn(parse), Split(a), Split(b));
  }

  // The numbers of the entries that are numbers, in order.
  function NumbersIn(parse: IntParser, ps: seq<Padded>): seq<int> {
    if ps == [] then []
    else
      var number := if ps[0].key == "" then None else parse(ps[0].key);
      (if number.Some? then [number.value] else []) + NumbersIn(parse, ps[1..])
  }

  lemma {:induction false} GatherNumbers(parse: IntParser, ps: seq<Padded>)
    requires AllValid(ps)
    ensures Gather(IdIn(parse), Texts(ps)) == NumbersIn(parse, ps)
  {
    if ps == [] {
    } else {
      GatherNumbers(parse, ps[1..]);
      PaddedKey(ps[0]);
      assert Texts(ps)[1..] == Texts(ps[1..]);
    }
  }

  // A list of entries is parsed to the numbers among them, in order: white space around an entry
  // is ignored, and blank entries and entries that are no number contribute nothing.
  lemma AdminIdsRoundTrip(parse: IntParser, ps: seq<Padded>)
    requires AllValid(ps)
    ensures IdsOf(parse, Split(Join(Texts(ps)))) == NumbersIn(parse, ps)
  {
    GatherNumbers(parse, ps);
    if ps == [] {
      assert Texts(ps) == [];
      assert Strip("") == "" && IdIn(parse)("") == [];
      assert Gather(IdIn(parse), [""]) == [];
    } else {
      SplitTexts(ps);
    }
  }

  function Written(ids: seq<int>): seq<Padded> {
    seq(|ids|, i requires 0 <= i < |ids| => Padded("", Decimal(ids[i]), ""))
  }

  lemma DecimalIsKey(n: int)
    ensures IsKey(Decimal(n)) && Padded("", Decimal(n), "").Valid()
  {
    DecimalChars(n);
  }

  lemma {:induction false} NumbersWritten(parse: IntParser, ids: seq<int>)
    requires forall n: int :: parse(Decimal(n)) == Some(n)
    ensures NumbersIn(parse, Written(ids)) == ids
  {
    if ids == [] {
    } else {
      NumbersWritten(parse, ids[1..]);
      assert Written(ids)[1..] == Written(ids[1..]);
      DecimalIsKey(ids[0]);
    }
  }

  // With int() reading what str() writes, the ids written with commas are the admin ids.
  lemma AdminIdsOfNumbers(parse: IntParser, ids: seq<int>)
    requires forall n: int :: parse(Decimal(n)) == Some(n)
    ensures IdsOf(parse, Split(Join(Texts(Written(ids))))) == ids
  {
    forall i | 0 <= i < |ids| ensures Written(ids)[i].Valid() {
      DecimalIsKey(ids[i]);
    }
    NumbersWritten(parse, ids);
    AdminIdsRoundTrip(parse, Written(ids));
  }
}
