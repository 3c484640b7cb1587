/** The Autocrypt header: printing it, with blanks so that mailers can fold the
    key data, and parsing it back. */
module Autocrypt {
  import opened Options
  import opened Strings

  datatype EncryptPreference = NoPreference | Mutual

  datatype Aheader<K> = Aheader(addr: string, key: K, prefer: EncryptPreference, verified: bool)

  datatype ParseError = NoAddr | NoKeydata | BadKey | UnknownAttribute

  datatype Result<T> = Ok(value: T) | Err(error: ParseError)

  /** Keys and their Base64 form: `decode` reads text without white space, and
      `bound` is the check of the key's bindings. */
  datatype KeyCodec<!K> = KeyCodec(encode: K -> string, decode: string -> Option<K>, bound: K -> bool)

  predicate IsBase64(c: char) {
    'A' <= c <= 'Z' || 'a' <= c <= 'z' || '0' <= c <= '9' || c == '+' || c == '/' || c == '='
  }

  predicate Lawful<K(==)>(codec: KeyCodec<K>, key: K) {
    && (forall i :: 0 <= i < |codec.encode(key)| ==> IsBase64(codec.encode(key)[i]))
    && codec.decode(codec.encode(key)) == Some(key)
    && codec.bound(key)
  }

  // ---------------------------------------------------------------- printing

  const KEYDATA := "keydata="

  /** The Base64 text from position `i` on, with a blank before every 78th character. */
  function FoldFrom(b: string, i: nat): string
    requires i <= |b|
    decreases |b| - i
  {
    if i == |b| then ""
    else (if i % 78 == 78 - |KEYDATA| then " " else "") + [b[i]] + FoldFrom(b, i + 1)
  }

  function Piece(blank: string, key: string, value: string): string {
    blank + key + ['='] + value
  }

  function Print<K>(codec: KeyCodec<K>, lower: string -> string, h: Aheader<K>): string {
    var rest := Piece(" ", "keydata", FoldFrom(codec.encode(h.key), 0));
    Piece("", "addr", lower(h.addr)) + [';'] +
    if h.prefer.Mutual? then Piece(" ", "prefer-encrypt", "mutual") + [';'] + rest else rest
  }

  // ----------------------------------------------------------------- parsing

  function IndexOf(s: string, c: char): (i: nat)
    ensures i <= |s| && (i < |s| ==> s[i] == c)
    ensures forall j :: 0 <= j < i ==> s[j] != c
  {
    if s == "" || s[0] == c then 0 else 1 + IndexOf(s[1..], c)
  }

  /** A piece of the header with an equals sign is a key and a value. */
  function Attribute(piece: string): Option<(string, string)> { KeyAndValue(Trim(piece)) }

  function KeyAndValue(a: string): Option<(string, string)> {
    var i := IndexOf(a, '=');
    if i == |a| then None else Some((Trim(a[..i]), Trim(a[i + 1..])))
  }

  /** A later attribute replaces an earlier one of the same name. */
  function Attributes(pieces: seq<string>): map<string, string> {
    if pieces == [] then map[]
    else
      var before := Attributes(pieces[..|pieces| - 1]);
      match Attribute(pieces[|pieces| - 1])
      case None => before
      case Some((key, value)) => before[key := value]
  }

  function Preference(attributes: map<string, string>): EncryptPreference {
    if "prefer-encrypt" in attributes && attributes["prefer-encrypt"] == "mutual" then Mutual else NoPreference
  }

  predicate HasUnknown(attributes: map<string, string>) {
    exists k :: k in attributes && !(['_'] <= k) && k != "addr" && k != "keydata" && k != "prefer-encrypt"
  }

  function FromAttributes<K>(codec: KeyCodec<K>, attributes: map<string, string>): Result<Aheader<K>> {
    if "addr" !in attributes then Err(NoAddr)
    else if "keydata" !in attributes then Err(NoKeydata)
    else
      match codec.decode(StripWhitespace(attributes["keydata"]))
      case None => Err(BadKey)
      case Some(key) =>
        if !codec.bound(key) then Err(BadKey)
        else if HasUnknown(attributes) then Err(UnknownAttribute)
        else Ok(Aheader(attributes["addr"], key, Preference(attributes), "_verified" in attributes))
  }

  function Parse<K>(codec: KeyCodec<K>, s: string): Result<Aheader<K>> {
    FromAttributes(codec, Attributes(Split(s, ';')))
  }

  // -------------------------------------------------------- folding the key

  /** Where the output for character `i` begins within the keydata attribute. */
  function Offset(i: nat): nat { i + 8 + (i + 7) / 78 }

  predicate AllBase64(b: string) { forall i :: 0 <= i < |b| ==> IsBase64(b[i]) }

  lemma LineOf(i: nat, q: nat, r: nat)
    requires r < 78 && i == 78 * q + r
    ensures i % 78 == r && (i + 7) / 78 == if r < 71 then q else q + 1
  {
  }

  lemma PlaceOf(n: nat, q: nat, r: nat)
    requires r < 79 && n == 79 * q + r
    ensures n % 79 == r
  {
  }

  lemma OffsetStep(i: nat)
    ensures Offset(i + 1) == Offset(i) + if i % 78 == 70 then 2 else 1
    ensures Offset(i) % 79 == 78 <==> i % 78 == 70
    ensures i % 78 == 70 ==> (Offset(i) + 1) % 79 == 0
  {
    var q, r := i / 78, i % 78;
    LineOf(i, q, r);
    if r < 77 {
      LineOf(i + 1, q, r + 1);
    } else {
      LineOf(i + 1, q + 1, 0);
    }
    if r < 71 {
      PlaceOf(Offset(i), q, r + 8);
    } else {
      PlaceOf(Offset(i), q + 1, r - 70);
    }
    if r == 70 { PlaceOf(Offset(i) + 1, q + 1, 0); }
  }

  lemma {:induction false} BlanksAt(b: string, i: nat, j: nat)
    requires AllBase64(b) && i <= |b| && j < |FoldFrom(b, i)|
    ensures FoldFrom(b, i)[j] == ' ' <==> (Offset(i) + j) % 79 == 78
    ensures FoldFrom(b, i)[j] == ' ' || IsBase64(FoldFrom(b, i)[j])
    decreases |b| - i
  {
    OffsetStep(i);
    var n, rest := if i % 78 == 70 then 2 else 1, FoldFrom(b, i + 1);
    assert FoldFrom(b, i) == (if n == 2 then [' '] else []) + [b[i]] + rest;
    if j >= n {
      BlanksAt(b, i + 1, j - n);
      assert FoldFrom(b, i)[j] == rest[j - n];
    }
  }

  lemma StripHead(c: char, rest: string)
    ensures StripWhitespace([c] + rest) == (if IsWhitespace(c) then "" else [c]) + StripWhitespace(rest)
  {
    assert ([c] + rest)[1..] == rest;
  }

  lemma FoldStep(b: string, i: nat)
    requires i < |b|
    ensures var rest := [b[i]] + FoldFrom(b, i + 1);
            FoldFrom(b, i) == if i % 78 == 70 then [' '] + rest else rest
  {
    var rest := [b[i]] + FoldFrom(b, i + 1);
    Assoc([' '], [b[i]], FoldFrom(b, i + 1));
    Assoc([], [b[i]], FoldFrom(b, i + 1));
    assert [] + rest == rest;
  }

  lemma StripStep(c: char, rest: string)
    requires IsBase64(c)
    ensures StripWhitespace([c] + rest) == [c] + StripWhitespace(rest)
    ensures StripWhitespace([' '] + ([c] + rest)) == [c] + StripWhitespace(rest)
  {
    StripHead(c, rest);
    StripHead(' ', [c] + rest);
  }

  lemma {:induction false} StripFold(b: string, i: nat)
    requires AllBase64(b) && i <= |b|
    ensures StripWhitespace(FoldFrom(b, i)) == b[i..]
    decreases |b| - i
  {
    if i < |b| {
      StripFold(b, i + 1);
      FoldStep(b, i);
      StripStep(b[i], FoldFrom(b, i + 1));
      Uncons(b, i);
    }
  }

  lemma AttributeBlank(b: string, j: nat)
    requires AllBase64(b) && j < |KEYDATA + FoldFrom(b, 0)|
    ensures (KEYDATA + FoldFrom(b, 0))[j] == ' ' <==> j % 79 == 78
  {
    if j >= 8 { BlanksAt(b, 0, j - 8); }
  }

  lemma NextBlank(x: nat)
    ensures x <= x + 78 - x % 79 <= x + 78 && (x + 78 - x % 79) % 79 == 78
  {
    var q, r := x / 79, x % 79;
    PlaceOf(x + 78 - r, q, 78);
  }

  /** The keydata attribute has a blank at every 79th place and nowhere else, so
      no run without blanks is longer than 78; without the blanks it is the key. */
  lemma KeydataFolds(b: string, x: nat, y: nat)
    requires AllBase64(b)
    requires var a := KEYDATA + FoldFrom(b, 0); x <= y <= |a| && forall j :: x <= j < y ==> a[j] != ' '
    ensures y - x <= 78
    ensures forall j :: 0 <= j < |KEYDATA + FoldFrom(b, 0)| ==>
              ((KEYDATA + FoldFrom(b, 0))[j] == ' ' <==> j % 79 == 78)
    ensures StripWhitespace(FoldFrom(b, 0)) == b
  {
    forall j | 0 <= j < |KEYDATA + FoldFrom(b, 0)|
      ensures (KEYDATA + FoldFrom(b, 0))[j] == ' ' <==> j % 79 == 78
    {
      AttributeBlank(b, j);
    }
    StripFold(b, 0);
    NextBlank(x);
    var next := x + 78 - x % 79;
    if next < y { AttributeBlank(b, next); }
  }

  // ------------------------------------------------------------ round trip

  predicate Clean(addr: string) { ';' !in addr && Trimmed(addr) }

  /** The names of attributes. */
  predicate CleanKey(key: string) { key != "" && Trimmed(key) && '=' !in key && ';' !in key }

  lemma KeysAreClean()
    ensures CleanKey("addr") && CleanKey("keydata") && CleanKey("prefer-encrypt")
  {
  }

  lemma {:induction false} IndexOfFirst(key: string, value: string)
    requires '=' !in key
    ensures IndexOf(key + ['='] + value, '=') == |key|
  {
    if key != "" {
      assert (key + ['='] + value)[1..] == key[1..] + ['='] + value;
      IndexOfFirst(key[1..], value);
    }
  }

  lemma TrimPiece(blank: string, key: string, value: string)
    requires blank == "" || blank == [' ']
    requires key != "" && Trimmed(key) && Trimmed(value)
    ensures Trim(Piece(blank, key, value)) == key + ['='] + value
  {
    var a := key + ['='] + value;
    assert a[0] == key[0] && a[|a| - 1] == if value == "" then '=' else value[|value| - 1];
    if blank == "" {
      assert Piece(blank, key, value) == a;
    } else {
      assert Piece(blank, key, value)[1..] == a;
    }
  }

  lemma AttributeOfPiece(blank: string, key: string, value: string)
    requires blank == "" || blank == [' ']
    requires key != "" && Trimmed(key) && '=' !in key && Trimmed(value)
    ensures Attribute(Piece(blank, key, value)) == Some((key, value))
  {
    var a := key + ['='] + value;
    TrimPiece(blank, key, value);
    IndexOfFirst(key, value);
    assert a[..|key|] == key && a[|key| + 1..] == value;
  }

  lemma AttributesSnoc(pieces: seq<string>, p: string, key: string, value: string)
    requires Attribute(p) == Some((key, value))
    ensures Attributes(pieces + [p]) == Attributes(pieces)[key := value]
  {
    assert (pieces + [p])[..|pieces|] == pieces;
  }

  lemma AttributesOfTwo(p1: string, p2: string, a1: (string, string), a2: (string, string))
    requires Attribute(p1) == Some(a1) && Attribute(p2) == Some(a2)
    ensures Attributes([p1, p2]) == map[][a1.0 := a1.1][a2.0 := a2.1]
  {
    var none: seq<string> := [];
    AttributesSnoc(none, p1, a1.0, a1.1);
    AttributesSnoc(none + [p1], p2, a2.0, a2.1);
    assert none + [p1] + [p2] == [p1, p2];
  }

  lemma AttributesOfThree(p1: string, p2: string, p3: string,
                          a1: (string, string), a2: (string, string), a3: (string, string))
    requires Attribute(p1) == Some(a1) && Attribute(p2) == Some(a2) && Attribute(p3) == Some(a3)
    ensures Attributes([p1, p2, p3]) == map[][a1.0 := a1.1][a2.0 := a2.1][a3.0 := a3.1]
  {
    AttributesOfTwo(p1, p2, a1, a2);
    AttributesSnoc([p1, p2], p3, a3.0, a3.1);
    assert [p1, p2] + [p3] == [p1, p2, p3];
  }

  lemma FoldTrimmed(b: string)
    requires AllBase64(b)
    ensures Trimmed(FoldFrom(b, 0)) && ';' !in FoldFrom(b, 0)
  {
    var f := FoldFrom(b, 0);
    forall j | 0 <= j < |f| ensures f[j] == ' ' || IsBase64(f[j]) { BlanksAt(b, 0, j); }
    if f != "" { FoldEnds(b, 0); }
  }

  lemma {:induction false} FoldEnds(b: string, i: nat)
    requires i < |b|
    ensures FoldFrom(b, i) != "" && FoldFrom(b, i)[|FoldFrom(b, i)| - 1] == b[|b| - 1]
    decreases |b| - i
  {
    if i + 1 < |b| { FoldEnds(b, i + 1); }
  }

  lemma SplitTwo(p1: string, p2: string)
    requires ';' !in p1 && ';' !in p2
    ensures Split(p1 + [';'] + p2, ';') == [p1, p2]
  {
    SplitWhole(p2, ';');
    SplitFirst(p1, p2, ';');
  }

  lemma SplitThree(p1: string, p2: string, p3: string)
    requires ';' !in p1 && ';' !in p2 && ';' !in p3
    ensures Split(p1 + [';'] + (p2 + [';'] + p3), ';') == [p1, p2, p3]
  {
    SplitTwo(p2, p3);
    SplitFirst(p1, p2 + [';'] + p3, ';');
  }

  /** The attributes of a printed header, for any three names. */
  lemma PiecesParse(k1: string, v1: string, k2: string, v2: string, k3: string, v3: string)
    requires CleanKey(k1) && CleanKey(k2) && CleanKey(k3)
    requires Clean(v1) && Clean(v2) && Clean(v3)
    ensures var p1, p2, p3 := Piece("", k1, v1), Piece([' '], k2, v2), Piece([' '], k3, v3);
            && Attributes(Split(p1 + [';'] + p3, ';')) == map[][k1 := v1][k3 := v3]
            && Attributes(Split(p1 + [';'] + (p2 + [';'] + p3), ';')) == map[][k1 := v1][k2 := v2][k3 := v3]
  {
    var p1, p2, p3 := Piece("", k1, v1), Piece([' '], k2, v2), Piece([' '], k3, v3);
    AttributeOfPiece("", k1, v1);
    AttributeOfPiece([' '], k2, v2);
    AttributeOfPiece([' '], k3, v3);
    SplitTwo(p1, p3);
    SplitThree(p1, p2, p3);
    AttributesOfTwo(p1, p3, (k1, v1), (k3, v3));
    AttributesOfThree(p1, p2, p3, (k1, v1), (k2, v2), (k3, v3));
  }

  lemma AttributesRead<K>(codec: KeyCodec<K>, addr: string, key: K, f: string)
    requires codec.decode(StripWhitespace(f)) == Some(key) && codec.bound(key)
    ensures FromAttributes(codec, map[]["addr" := addr]["keydata" := f])
            == Ok(Aheader(addr, key, NoPreference, false))
    ensures FromAttributes(codec, map[]["addr" := addr]["prefer-encrypt" := "mutual"]["keydata" := f])
            == Ok(Aheader(addr, key, Mutual, false))
  {
  }

  lemma PrintedAttributes<K>(codec: KeyCodec<K>, lower: string -> string, h: Aheader<K>)
    requires Lawful(codec, h.key) && Clean(lower(h.addr))
    ensures var f := FoldFrom(codec.encode(h.key), 0);
            Attributes(Split(Print(codec, lower, h), ';')) ==
              if h.prefer.Mutual? then
                map[]["addr" := lower(h.addr)]["prefer-encrypt" := "mutual"]["keydata" := f]
              else map[]["addr" := lower(h.addr)]["keydata" := f]
  {
    FoldTrimmed(codec.encode(h.key));
    KeysAreClean();
    PiecesParse("addr", lower(h.addr), "prefer-encrypt", "mutual", "keydata", FoldFrom(codec.encode(h.key), 0));
  }

  /** Whatever the header, a parsed address is clean. */
  lemma {:induction false} ValuesAreClean(pieces: seq<string>, k: string)
    requires forall i :: 0 <= i < |pieces| ==> ';' !in pieces[i]
    requires k in Attributes(pieces)
    ensures Clean(Attributes(pieces)[k])
  {
    var n := |pieces| - 1;
    if Attribute(pieces[n]).None? || Attribute(pieces[n]).value.0 != k {
      ValuesAreClean(pieces[..n], k);
    }
  }

  /** A printed header parses back to the same key and preference and to the
      lower-cased address, exactly if that address has no semicolon and no white
      space at its ends. The verified mark is not sent. */
  lemma RoundTrip<K>(codec: KeyCodec<K>, lower: string -> string, h: Aheader<K>)
    requires Lawful(codec, h.key)
    ensures Parse(codec, Print(codec, lower, h)) == Ok(Aheader(lower(h.addr), h.key, h.prefer, false))
            <==> Clean(lower(h.addr))
  {
    var s := Print(codec, lower, h);
    if Clean(lower(h.addr)) {
      PrintedAttributes(codec, lower, h);
      StripFold(codec.encode(h.key), 0);
      AttributesRead(codec, lower(h.addr), h.key, FoldFrom(codec.encode(h.key), 0));
    } else if Parse(codec, s).Ok? {
      ValuesAreClean(Split(s, ';'), "addr");
    }
  }

  // ------------------------------------------------------ headers of any kind

  lemma AttributeOfTrimmed(k: string, v: string)
    requires '=' !in k && Trimmed(k + ['='] + v)
    ensures Attribute(k + ['='] + v) == Some((Trim(k), Trim(v)))
  {
    var x := k + ['='] + v;
    IndexOfFirst(k, v);
    assert x[..|k|] == k && x[|k| + 1..] == v;
  }

  lemma AttributePad(a: string, x: string, d: string)
    requires Blank(a) && Blank(d) && Trimmed(x)
    ensures Attribute(a + x + d) == Attribute(x)
  {
    TrimPad(a, x, d);
  }

  lemma TrimEnds(key: string, b: string, c: string, value: string)
    requires Blank(b) && Blank(c) && Trimmed(key) && Trimmed(value)
    ensures Trim(key + b) == key && Trim(c + value) == value
  {
    TrimPad("", key, b);
    TrimPad(c, value, "");
    Nil(key);
    Nil(c + value);
  }

  lemma EndsOf(k: string, v: string)
    requires k != "" && v != ""
    ensures (k + ['='] + v)[0] == k[0] && (k + ['='] + v)[|k + ['='] + v| - 1] == v[|v| - 1]
  {
  }

  /** A piece is a key and a value around its first equals sign, whatever white space is
      around them. Without an equals sign it is nothing. */
  lemma AttributeMeaning(a: string, key: string, b: string, c: string, value: string, d: string)
    requires Blank(a) && Blank(b) && Blank(c) && Blank(d)
    requires CleanKey(key) && Trimmed(value) && value != ""
    ensures Attribute(a + ((key + b) + ['='] + (c + value)) + d) == Some((key, value))
  {
    assert '=' !in key + b by { assert forall i :: 0 <= i < |b| ==> b[i] != '='; }
    EndsOf(key + b, c + value);
    assert (key + b)[0] == key[0] && (c + value)[|c + value| - 1] == value[|value| - 1];
    AttributePad(a, (key + b) + ['='] + (c + value), d);
    AttributeOfTrimmed(key + b, c + value);
    TrimEnds(key, b, c, value);
  }

  lemma NoAttribute(piece: string)
    requires '=' !in piece
    ensures Attribute(piece).None?
  {
  }

  /** One more attribute at the end of a header that parses. A later address, key or
      preference replaces the earlier one; `_verified` marks it; other names with an
      underscore are ignored, and names without make the whole header invalid. */
  lemma ExtraAttribute<K>(codec: KeyCodec<K>, s: string, key: string, value: string)
    requires CleanKey(key) && Clean(value)
    requires Parse(codec, s).Ok?
    ensures var h, r := Parse(codec, s).value, Parse(codec, s + [';'] + Piece([' '], key, value));
            if key == "addr" then r == Ok(h.(addr := value))
            else if key == "keydata" then
              match codec.decode(StripWhitespace(value))
              case None => r == Err(BadKey)
              case Some(k) => r == if codec.bound(k) then Ok(h.(key := k)) else Err(BadKey)
            else if key == "prefer-encrypt" then
              r == Ok(h.(prefer := if value == "mutual" then Mutual else NoPreference))
            else if key == "_verified" then r == Ok(h.(verified := true))
            else r == if key[0] == '_' then Ok(h) else Err(UnknownAttribute)
  {
    var p, pieces := Piece([' '], key, value), Split(s, ';');
    AttributeOfPiece([' '], key, value);
    SplitConcat(s, p, ';');
    SplitWhole(p, ';');
    AttributesSnoc(pieces, p, key, value);
    ReadExtra(codec, Attributes(pieces), key, value);
  }

  lemma ReadExtra<K>(codec: KeyCodec<K>, m: map<string, string>, key: string, value: string)
    requires key != "" && FromAttributes(codec, m).Ok?
    ensures var h, r := FromAttributes(codec, m).value, FromAttributes(codec, m[key := value]);
            if key == "addr" then r == Ok(h.(addr := value))
            else if key == "keydata" then
              match codec.decode(StripWhitespace(value))
              case None => r == Err(BadKey)
              case Some(k) => r == if codec.bound(k) then Ok(h.(key := k)) else Err(BadKey)
            else if key == "prefer-encrypt" then
              r == Ok(h.(prefer := if value == "mutual" then Mutual else NoPreference))
            else if key == "_verified" then r == Ok(h.(verified := true))
            else r == if key[0] == '_' then Ok(h) else Err(UnknownAttribute)
  {
    var m' := m[key := value];
    UnknownIn(m, key, value);
  }

  predicate Known(key: string) {
    key == "addr" || key == "keydata" || key == "prefer-encrypt" || (key != "" && key[0] == '_')
  }

  lemma UnknownIn(m: map<string, string>, key: string, value: string)
    requires !HasUnknown(m)
    ensures HasUnknown(m[key := value]) <==> !Known(key)
  {
    assert (['_'] <= key) <==> (key != "" && key[0] == '_');
    if !Known(key) { assert key in m[key := value]; }
  }

  lemma OnePiece(key: string, value: string)
    requires CleanKey(key) && Clean(value)
    ensures Attributes(Split(Piece("", key, value), ';')) == map[][key := value]
  {
    var p := Piece("", key, value);
    AttributeOfPiece("", key, value);
    SplitWhole(p, ';');
    AttributesSnoc([], p, key, value);
    assert [] + [p] == [p];
  }

  lemma ReadTooLittle<K>(codec: KeyCodec<K>, addr: string, f: string)
    ensures FromAttributes(codec, map[]) == Err(NoAddr)
    ensures FromAttributes(codec, map[]["keydata" := f]) == Err(NoAddr)
    ensures FromAttributes(codec, map[]["addr" := addr]) == Err(NoKeydata)
    ensures var r := FromAttributes(codec, map[]["addr" := addr]["keydata" := f]);
            match codec.decode(StripWhitespace(f))
            case None => r == Err(BadKey)
            case Some(k) => !codec.bound(k) ==> r == Err(BadKey)
  {
  }

  lemma EmptyHeader()
    ensures Attributes(Split("", ';')) == map[]
  {
    assert Split("", ';') == [""] && Attribute("").None?;
    assert [""][..0] == [];
  }

  /** Why a header does not parse: the address is missed first, then the key, then the
      key is bad. */
  lemma TooLittle<K>(codec: KeyCodec<K>, addr: string, f: string)
    requires Clean(addr) && Clean(f)
    ensures Parse(codec, "") == Err(NoAddr)
    ensures Parse(codec, Piece("", "keydata", f)) == Err(NoAddr)
    ensures Parse(codec, Piece("", "addr", addr)) == Err(NoKeydata)
    ensures var r := Parse(codec, Piece("", "addr", addr) + [';'] + Piece([' '], "keydata", f));
            match codec.decode(StripWhitespace(f))
            case None => r == Err(BadKey)
            case Some(k) => !codec.bound(k) ==> r == Err(BadKey)
  {
    KeysAreClean();
    EmptyHeader();
    OnePiece("keydata", f);
    OnePiece("addr", addr);
    PiecesParse("addr", addr, "prefer-encrypt", f, "keydata", f);
    ReadTooLittle(codec, addr, f);
  }
}
