/**
 Buffer backends and endpoint GIDs in the USER_DATA of an endpoint. Octets are characters here.
 */
module UserData {
  import opened Wire

  // ---------------------------------------------------------------------------------------
  // key=value; entries
  // ---------------------------------------------------------------------------------------

  const BUFFER_BACKEND_KEY := "bufbe"

  predicate Alnum(c: char)
  {
    '0' <= c <= '9' || 'a' <= c <= 'z' || 'A' <= c <= 'Z'
  }

  predicate AlnumWord(s: string)
  {
    s != "" && forall i :: 0 <= i < |s| ==> Alnum(s[i])
  }

  /** The first position of a character, or the length. */
  function Find(s: string, c: char): (i: nat)
    ensures i <= |s|
    ensures i < |s| ==> s[i] == c
    ensures c !in s[..i]
  {
    if s == "" || s[0] == c then 0
    else
      var i := 1 + Find(s[1..], c);
      assert s[..i] == [s[0]] + s[1..][..i - 1];
      i
  }

  lemma {:induction false} FindFirst(s: string, c: char, rest: string)
    requires c !in s
    ensures Find(s + [c] + rest, c) == |s|
  {
    var whole := s + [c] + rest;
    if s != "" {
      assert whole[1..] == s[1..] + [c] + rest;
      FindFirst(s[1..], c, rest);
    }
  }

  lemma {:induction false} FindNone(s: string, c: char)
    requires c !in s
    ensures Find(s, c) == |s|
  {
    if s != "" {
      FindNone(s[1..], c);
    }
  }

  function KeyLength(s: string): (n: nat)
    ensures n <= |s|
  {
    if s == "" || !Alnum(s[0]) then 0 else 1 + KeyLength(s[1..])
  }

  /**
   The stated grammar of parse_key_value: alphanumeric keys, values up to a semicolon, and an end
   at the first octet of a key that is not alphanumeric. A later entry replaces an earlier one.
   */
  function ParseKeyValue(s: string): map<string, string>
    decreases |s|
  {
    var n := KeyLength(s);
    if n == 0 || n == |s| || s[n] != '=' then map[]
    else
      var rest := s[n + 1..];
      var end := Find(rest, ';');
      if end == |rest| then map[]
      else map[s[..n] := rest[..end]] + ParseKeyValue(rest[end + 1..])
  }

  function EntryText(key: string, value: string): string
  {
    key + "=" + value + ";"
  }

  predicate EntryFits(key: string, value: string)
  {
    AlnumWord(key) && ';' !in value
  }

  lemma {:induction false} KeyEnds(key: string, c: char, rest: string)
    requires !Alnum(c) && forall i :: 0 <= i < |key| ==> Alnum(key[i])
    ensures KeyLength(key + [c] + rest) == |key|
  {
    if key != "" {
      assert (key + [c] + rest)[1..] == key[1..] + [c] + rest;
      KeyEnds(key[1..], c, rest);
    }
  }

  lemma EntryParsed(key: string, value: string, rest: string)
    requires EntryFits(key, value)
    ensures ParseKeyValue(EntryText(key, value) + rest) == map[key := value] + ParseKeyValue(rest)
  {
    var s := EntryText(key, value) + rest;
    var tail := value + ";" + rest;
    assert s == key + "=" + tail;
    KeyEnds(key, '=', tail);
    assert s[|key| + 1..] == tail && s[..|key|] == key;
    FindFirst(value, ';', rest);
    assert tail[..|value|] == value && tail[|value| + 1..] == rest;
  }

  /** A row of entries, as the type hashes that precede the backends. */
  function EntriesText(entries: seq<(string, string)>): string
  {
    if entries == [] then "" else EntryText(entries[0].0, entries[0].1) + EntriesText(entries[1..])
  }

  predicate OtherEntries(entries: seq<(string, string)>)
  {
    forall i :: 0 <= i < |entries| ==> EntryFits(entries[i].0, entries[i].1) && entries[i].0 != BUFFER_BACKEND_KEY
  }

  /** Entries of other keys in front change nothing about the backends' entry. */
  lemma {:induction false} OthersPass(entries: seq<(string, string)>, rest: string)
    requires OtherEntries(entries)
    ensures BUFFER_BACKEND_KEY in ParseKeyValue(EntriesText(entries) + rest) <==> BUFFER_BACKEND_KEY in ParseKeyValue(rest)
    ensures BUFFER_BACKEND_KEY in ParseKeyValue(rest) ==>
      ParseKeyValue(EntriesText(entries) + rest)[BUFFER_BACKEND_KEY] == ParseKeyValue(rest)[BUFFER_BACKEND_KEY]
  {
    hide ParseKeyValue, EntryText, EntryFits;
    if entries == [] {
      assert EntriesText(entries) + rest == rest;
    } else {
      var first, others := EntryText(entries[0].0, entries[0].1), EntriesText(entries[1..]);
      assert EntriesText(entries) + rest == first + (others + rest);
      EntryParsed(entries[0].0, entries[0].1, others + rest);
      OthersPass(entries[1..], rest);
    }
  }

  // ---------------------------------------------------------------------------------------
  // Buffer backends
  // ---------------------------------------------------------------------------------------

  type Backend = (string, string)

  /** Backends joined by commas, each `<name>:<aux>`, in the order the hash map yields them. */
  function Joined(row: seq<Backend>): string
  {
    if row == [] then ""
    else if |row| == 1 then row[0].0 + ":" + row[0].1
    else row[0].0 + ":" + row[0].1 + "," + Joined(row[1..])
  }

  function EncodeBackends(row: seq<Backend>): string
  {
    if row == [] then "" else EntryText(BUFFER_BACKEND_KEY, Joined(row))
  }

  function EntryBackend(entry: string): map<string, string>
  {
    var colon := Find(entry, ':');
    var name := entry[..colon];
    if name == "" then map[]
    else map[name := if colon == |entry| then "" else entry[colon + 1..]]
  }

  function ParseValue(value: string): map<string, string>
    decreases |value|
  {
    if value == "" then map[]
    else
      var comma := Find(value, ',');
      EntryBackend(value[..comma]) + if comma == |value| then map[] else ParseValue(value[comma + 1..])
  }

  function ParseBackends(data: string): map<string, string>
  {
    var kv := ParseKeyValue(data);
    if BUFFER_BACKEND_KEY in kv then ParseValue(kv[BUFFER_BACKEND_KEY]) else map[]
  }

  /** The row names each backend of the map once, in some order. */
  ghost predicate Lists(row: seq<Backend>, backends: map<string, string>)
  {
    && (forall i :: 0 <= i < |row| ==> row[i].0 in backends && backends[row[i].0] == row[i].1)
    && (forall i, j :: 0 <= i < j < |row| ==> row[i].0 != row[j].0)
    && forall name :: name in backends ==> exists i :: 0 <= i < |row| && row[i].0 == name
  }

  /** Names are not empty and neither they nor their aux use the separators. */
  predicate Separable(row: seq<Backend>)
  {
    forall i :: 0 <= i < |row| ==>
      && row[i].0 != "" && ',' !in row[i].0 && ':' !in row[i].0 && ';' !in row[i].0
      && ',' !in row[i].1 && ';' !in row[i].1
  }

  function MapOf(row: seq<Backend>): map<string, string>
  {
    if row == [] then map[] else map[row[0].0 := row[0].1] + MapOf(row[1..])
  }

  lemma ListsRest(row: seq<Backend>, backends: map<string, string>, others: map<string, string>)
    requires Lists(row, backends) && row != []
    requires others == map name | name in backends && name != row[0].0 :: backends[name]
    ensures Lists(row[1..], others)
  {
    forall name | name in others
      ensures exists i :: 0 <= i < |row[1..]| && row[1..][i].0 == name
    {
      var i :| 0 <= i < |row| && row[i].0 == name;
      assert row[1..][i - 1].0 == name;
    }
  }

  lemma PutBack(m: map<string, string>, k: string)
    requires k in m
    ensures map[k := m[k]] + (map x | x in m && x != k :: m[x]) == m
  {
  }

  lemma {:induction false} MapOfListed(row: seq<Backend>, backends: map<string, string>)
    requires Lists(row, backends)
    ensures MapOf(row) == backends
  {
    if row == [] {
      assert backends == map[];
    } else {
      var others := map name | name in backends && name != row[0].0 :: backends[name];
      assert row[0].0 in backends && backends[row[0].0] == row[0].1;
      ListsRest(row, backends, others);
      hide Lists;
      MapOfListed(row[1..], others);
      assert MapOf(row) == map[row[0].0 := row[0].1] + MapOf(row[1..]);
      hide MapOf;
      PutBack(backends, row[0].0);
    }
  }

  lemma BackendParsed(b: Backend)
    requires b.0 != "" && ':' !in b.0
    ensures EntryBackend(b.0 + ":" + b.1) == map[b.0 := b.1]
  {
    FindFirst(b.0, ':', b.1);
    assert (b.0 + ":" + b.1)[..|b.0|] == b.0;
    assert (b.0 + ":" + b.1)[|b.0| + 1..] == b.1;
  }

  lemma {:induction false} ValueParsed(row: seq<Backend>)
    requires Separable(row)
    ensures ParseValue(Joined(row)) == MapOf(row)
  {
    if row != [] {
      hide EntryBackend, Find;
      var text := row[0].0 + ":" + row[0].1;
      BackendParsed(row[0]);
      if |row| == 1 {
        FindNone(text, ',');
        assert text[..|text|] == text && row[1..] == [];
      } else {
        var rest := Joined(row[1..]);
        assert Joined(row) == text + [','] + rest;
        FindFirst(text, ',', rest);
        assert Joined(row)[..|text|] == text && Joined(row)[|text| + 1..] == rest;
        ValueParsed(row[1..]);
      }
    }
  }

  lemma {:induction false} JoinedHasNoTerminator(row: seq<Backend>)
    requires Separable(row)
    ensures ';' !in Joined(row)
  {
    if row != [] {
      JoinedHasNoTerminator(row[1..]);
    }
  }

  /**
   The backends come back from USER_DATA whatever order the map was walked in, behind the
   entries of other keys, and in front of anything that brings no backends of its own.
   */
  lemma BackendsReadBack(row: seq<Backend>, backends: map<string, string>, others: seq<(string, string)>, rest: string)
    requires Lists(row, backends) && Separable(row)
    requires OtherEntries(others) && BUFFER_BACKEND_KEY !in ParseKeyValue(rest)
    ensures ParseBackends(EntriesText(others) + (EncodeBackends(row) + rest)) == backends
  {
    hide ParseKeyValue, ParseValue, EntriesText, Joined, MapOf;
    MapOfListed(row, backends);
    assert row == [] ==> backends == map[];
    hide Lists;
    OthersPass(others, EncodeBackends(row) + rest);
    if row == [] {
      assert EncodeBackends(row) + rest == rest;
    } else {
      JoinedHasNoTerminator(row);
      EntryParsed(BUFFER_BACKEND_KEY, Joined(row), rest);
      ValueParsed(row);
    }
  }

  /** The GID of a main writer, appended behind the entries, brings no backends. */
  lemma GidBringsNoBackends(text: string)
    ensures ParseKeyValue(PGID_TAG + text) == map[]
    ensures ParseKeyValue("") == map[]
  {
    assert PGID_TAG + text == "PGID" + [':'] + text;
    KeyEnds("PGID", ':', text);
  }

  /** An empty advertisement writes nothing. */
  lemma EmptyWritesNothing(row: seq<Backend>)
    ensures EncodeBackends(row) == "" <==> row == []
  {
  }

  lemma OneEntry(a: Backend)
    ensures EncodeBackends([a]) == "bufbe=" + (a.0 + ":" + a.1) + ";"
  {
  }

  lemma TwoEntries(a: Backend, b: Backend)
    ensures EncodeBackends([a, b]) == "bufbe=" + (a.0 + ":" + a.1 + "," + (b.0 + ":" + b.1)) + ";"
  {
    assert [a, b][1..] == [b];
    assert Joined([b]) == b.0 + ":" + b.1;
  }

  /** What one backend, and two, look like on the wire. */
  lemma BackendsExample()
    ensures EncodeBackends([("cpu", "")]) == "bufbe=cpu:;"
    ensures EncodeBackends([("cuda", "v1"), ("cpu", "")]) == "bufbe=cuda:v1,cpu:;"
  {
    hide EncodeBackends;
    OneEntry(("cpu", ""));
    TwoEntries(("cuda", "v1"), ("cpu", ""));
  }

  /** A name without a colon has an empty aux. */
  lemma BareNameRead(name: string, rest: string)
    requires name != "" && ',' !in name && ':' !in name
    ensures ParseValue(name) == map[name := ""]
    ensures ParseValue(name + "," + rest) == map[name := ""] + ParseValue(rest)
  {
    FindNone(name, ':');
    FindNone(name, ',');
    FindFirst(name, ',', rest);
    assert name[..|name|] == name;
    assert (name + "," + rest)[..|name|] == name && (name + "," + rest)[|name| + 1..] == rest;
    hide Find;
    assert EntryBackend(name) == map[name := ""];
  }

  /** An entry without a name, or with nothing in it, is passed over. */
  lemma NamelessPassed(aux: string, rest: string)
    requires ',' !in aux
    ensures ParseValue(":" + aux + "," + rest) == ParseValue(rest)
    ensures ParseValue("," + rest) == ParseValue(rest)
  {
    NothingInFront(":" + aux, rest);
    NothingInFront("", rest);
    assert "" + "," + rest == "," + rest;
  }

  lemma NothingInFront(entry: string, rest: string)
    requires ',' !in entry && (entry != "" ==> entry[0] == ':')
    ensures ParseValue(entry + "," + rest) == ParseValue(rest)
  {
    FindFirst(entry, ',', rest);
    assert (entry + "," + rest)[..|entry|] == entry && (entry + "," + rest)[|entry| + 1..] == rest;
    assert EntryBackend(entry) == map[];
    hide Find, EntryBackend;
    assert map[] + ParseValue(rest) == ParseValue(rest);
  }

  /** Backend `i` as it is written, behind a comma unless it is the first. */
  function Piece(row: seq<Backend>, i: nat): string
    requires i < |row|
  {
    if i == 0 then row[i].0 + ":" + row[i].1 else "," + (row[i].0 + ":" + row[i].1)
  }

  /** What is still to be written from backend `i` on. */
  function JoinedFrom(row: seq<Backend>, i: nat): string
    requires i <= |row|
  {
    if i == |row| then "" else (if i == 0 then "" else ",") + Joined(row[i..])
  }

  lemma JoinedStep(row: seq<Backend>, i: nat)
    requires i < |row|
    ensures JoinedFrom(row, i) == Piece(row, i) + JoinedFrom(row, i + 1)
  {
    assert row[i..][1..] == row[i + 1..];
  }

  lemma Regroup(a: string, b: string, c: string)
    ensures a + (b + c) == (a + b) + c
  {
  }

  method EncodeBufferBackends(row: seq<Backend>) returns (text: string)
    ensures text == EncodeBackends(row)
  {
    if |row| == 0 {
      return "";
    }
    var joined := JoinBackends(row);
    text := BUFFER_BACKEND_KEY + "=" + joined + ";";
  }

  method WriteBackend(row: seq<Backend>, i: nat, first: bool) returns (piece: string)
    requires i < |row| && (first <==> i == 0)
    ensures piece == Piece(row, i)
  {
    piece := row[i].0 + ":" + row[i].1;
    if !first {
      piece := "," + piece;
    }
  }

  method JoinBackends(row: seq<Backend>) returns (text: string)
    ensures text == Joined(row)
  {
    hide JoinedFrom, Joined, Piece;
    AllLeft(row);
    text := "";
    var first := true;
    for i := 0 to |row|
      invariant first <==> i == 0
      invariant Joined(row) == text + JoinedFrom(row, i)
    {
      var piece := WriteBackend(row, i, first);
      JoinedStep(row, i);
      Regroup(text, piece, JoinedFrom(row, i + 1));
      text := text + piece;
      first := false;
    }
    NothingLeft(row);
    assert text + "" == text;
  }

  lemma AllLeft(row: seq<Backend>)
    ensures Joined(row) == "" + JoinedFrom(row, 0)
  {
    assert row[0..] == row;
  }

  lemma NothingLeft(row: seq<Backend>)
    ensures JoinedFrom(row, |row|) == ""
  {
  }

  lemma ParseValueStep(result: map<string, string>, value: string)
    requires value != ""
    ensures var comma := Find(value, ',');
      result + ParseValue(value) == (result + EntryBackend(value[..comma])) + ParseValue(if comma == |value| then "" else value[comma + 1..])
  {
    hide EntryBackend, Find;
  }

  method ParseEntry(result: map<string, string>, entry: string) returns (more: map<string, string>)
    ensures more == result + EntryBackend(entry)
  {
    more := result;
    if entry == "" {
      return;
    }
    var colon := Find(entry, ':');
    var name := entry[..colon];
    var aux := if colon == |entry| then "" else entry[colon + 1..];
    if name != "" {
      more := more[name := aux];
    }
  }

  /** `kv` is what parse_key_value made of the octets. */
  method ParseBufferBackends(kv: map<string, string>) returns (result: map<string, string>)
    ensures result == if BUFFER_BACKEND_KEY in kv then ParseValue(kv[BUFFER_BACKEND_KEY]) else map[]
  {
    result := map[];
    if BUFFER_BACKEND_KEY !in kv {
      return;
    }
    var left := kv[BUFFER_BACKEND_KEY];
    ghost var whole := ParseValue(left);
    assert map[] + whole == whole;
    hide EntryBackend;
    while left != ""
      invariant result + ParseValue(left) == whole
      decreases |left|
    {
      ParseValueStep(result, left);
      // getline
      var comma := Find(left, ',');
      result := ParseEntry(result, left[..comma]);
      left := if comma == |left| then "" else left[comma + 1..];
    }
    assert result + map[] == result;
  }

  // ---------------------------------------------------------------------------------------
  // Endpoint GIDs
  // ---------------------------------------------------------------------------------------

  const GID_SIZE := 16
  const PGID_TAG := "PGID:"

  function HexDigit(n: nat): (c: char)
    requires n < 16
  {
    "0123456789abcdef"[n]
  }

  /** The value of a hexadecimal digit in either case, or 16. */
  function HexDigitValue(c: char): (n: nat)
    ensures n <= 16
  {
    if '0' <= c <= '9' then (c - '0') as nat
    else if 'a' <= c <= 'f' then 10 + (c - 'a') as nat
    else if 'A' <= c <= 'F' then 10 + (c - 'A') as nat
    else 16
  }

  predicate Space(c: char)
  {
    c == ' ' || '\t' <= c <= '\r'
  }

  /**
   What reading an unsigned number in base 16 from two characters gives, cut to an octet: blanks
   are skipped, a sign is taken, the number ends at the first other character, and without a
   digit it is 0.
   */
  function HexPairValue(a: char, b: char): (v: byte)
  {
    var x, y := HexDigitValue(a), HexDigitValue(b);
    if x < 16 then (if y < 16 then 16 * x + y else x)
    else if y == 16 then 0
    else if Space(a) || a == '+' then y
    else if a == '-' then (256 - y) % 256
    else 0
  }

  lemma HexPairReadBack(v: byte)
    ensures HexPairValue(HexDigit(v / 16), HexDigit(v % 16)) == v
  {
    HexDigitReadBack(v / 16);
    HexDigitReadBack(v % 16);
  }

  lemma HexDigitReadBack(n: nat)
    requires n < 16
    ensures HexDigitValue(HexDigit(n)) == n
  {
  }

  function HexText(gid: seq<byte>): (s: string)
    ensures |s| == 2 * |gid|
  {
    if gid == [] then "" else [HexDigit(gid[0] / 16), HexDigit(gid[0] % 16)] + HexText(gid[1..])
  }

  function HexValues(s: string): (gid: seq<byte>)
    ensures |gid| == |s| / 2
  {
    if |s| < 2 then [] else [HexPairValue(s[0], s[1])] + HexValues(s[2..])
  }

  lemma {:induction false} HexReadBack(gid: seq<byte>)
    ensures HexValues(HexText(gid)) == gid
  {
    if gid != [] {
      HexPairReadBack(gid[0]);
      assert HexText(gid)[2..] == HexText(gid[1..]);
      HexReadBack(gid[1..]);
    }
  }

  /** The digits of octet `k`, upper half first, in lower case. */
  lemma {:induction false} HexTextForm(gid: seq<byte>, k: nat)
    requires k < |gid|
    ensures var x, y := HexText(gid)[2 * k], HexText(gid)[2 * k + 1];
      && x as int == (if gid[k] / 16 < 10 then 48 + gid[k] / 16 else 87 + gid[k] / 16)
      && y as int == (if gid[k] % 16 < 10 then 48 + gid[k] % 16 else 87 + gid[k] % 16)
    decreases k
  {
    if k == 0 {
      DigitForm(gid[0] / 16);
      DigitForm(gid[0] % 16);
    } else {
      hide HexDigit;
      HexTextForm(gid[1..], k - 1);
      assert HexText(gid)[2..] == HexText(gid[1..]);
      assert HexText(gid)[2 * k] == HexText(gid)[2..][2 * (k - 1)];
      assert HexText(gid)[2 * k + 1] == HexText(gid)[2..][2 * (k - 1) + 1];
    }
  }

  lemma DigitForm(n: nat)
    requires n < 16
    ensures HexDigit(n) as int == if n < 10 then 48 + n else 87 + n
  {
  }

  /**
   Pairs a stream in base 16 reads otherwise than the writer means them: upper case is as good as
   lower; blanks and a sign in front are taken; the number ends with the digits; none is 0.
   */
  lemma OddPairs()
    ensures HexPairValue('A', 'f') == 0xAF && HexPairValue('0', 'F') == 0x0F
    ensures HexPairValue(' ', '7') == 7 && HexPairValue('\t', 'c') == 12 && HexPairValue('+', 'c') == 12
    ensures HexPairValue('-', '7') == 249 && HexPairValue('-', '0') == 0
    ensures HexPairValue('7', 'g') == 7 && HexPairValue('g', '7') == 0 && HexPairValue('-', '+') == 0 && HexPairValue(' ', ' ') == 0
  {
  }

  predicate OccursAt(s: string, tag: string, i: nat)
  {
    i + |tag| <= |s| && s[i..i + |tag|] == tag
  }

  /** The first occurrence of the tag at or after `i`. */
  function FirstOccurrence(s: string, tag: string, i: nat): (r: Option<nat>)
    ensures r.Some? ==> i <= r.value && OccursAt(s, tag, r.value) && forall k :: i <= k < r.value ==> !OccursAt(s, tag, k)
    ensures r.None? ==> forall k: nat :: i <= k ==> !OccursAt(s, tag, k)
    decreases |s| - i
  {
    if i + |tag| > |s| then None
    else if OccursAt(s, tag, i) then Some(i)
    else FirstOccurrence(s, tag, i + 1)
  }

  function ParseGid(data: string, tag: string): Option<seq<byte>>
  {
    match FirstOccurrence(data, tag, 0)
    case None => None
    case Some(pos) =>
      var hex := data[pos + |tag|..];
      if |hex| < 2 * GID_SIZE then None else Some(HexValues(hex[..2 * GID_SIZE]))
  }

  /** A GID is read exactly when 32 characters follow the first tag. */
  lemma GidNeedsAllDigits(data: string, tag: string, i: nat)
    requires OccursAt(data, tag, i) && forall k: nat :: k < i ==> !OccursAt(data, tag, k)
    ensures ParseGid(data, tag).Some? <==> i + |tag| + 32 <= |data|
    ensures ParseGid(data, tag).Some? ==> |ParseGid(data, tag).value| == 16
  {
    assert FirstOccurrence(data, tag, 0) == Some(i);
  }

  /** No proper end of the tag is also its beginning. */
  predicate Borderless(tag: string)
  {
    forall k :: 0 < k < |tag| ==> tag[k..] != tag[..|tag| - k]
  }

  lemma PgidBorderless()
    ensures Borderless(PGID_TAG)
  {
    assert forall k :: 0 < k < 5 ==> PGID_TAG[k..][0] == PGID_TAG[k] && PGID_TAG[..5 - k][0] == 'P';
  }

  /** An occurrence across the seam would match an end of the tag with its beginning. */
  lemma OverlapIsBorder(prefix: string, tag: string, rest: string, i: nat)
    requires i < |prefix| < i + |tag| && OccursAt(prefix + tag + rest, tag, i)
    ensures tag[|prefix| - i..] == tag[..|tag| - (|prefix| - i)]
  {
    var s, k := prefix + tag + rest, |prefix| - i;
    assert s[i..i + |tag|][k..] == s[|prefix|..|prefix| + (|tag| - k)];
  }

  lemma NoEarlierOccurrence(prefix: string, tag: string, rest: string, i: nat)
    requires Borderless(tag) && i < |prefix|
    requires forall k: nat :: !OccursAt(prefix, tag, k)
    ensures !OccursAt(prefix + tag + rest, tag, i)
  {
    var s := prefix + tag + rest;
    if OccursAt(s, tag, i) {
      if i + |tag| <= |prefix| {
        assert s[i..i + |tag|] == prefix[i..i + |tag|];
        assert OccursAt(prefix, tag, i);
      } else {
        OverlapIsBorder(prefix, tag, rest, i);
        assert false;
      }
    }
  }

  /** Behind any text without the tag, and before any text, a GID comes back unchanged. */
  lemma GidReadBack(gid: seq<byte>, prefix: string, tag: string, rest: string)
    requires |gid| == GID_SIZE && Borderless(tag)
    requires forall k: nat :: !OccursAt(prefix, tag, k)
    ensures ParseGid(prefix + tag + HexText(gid) + rest, tag) == Some(gid)
  {
    var tail := HexText(gid) + rest;
    var data := prefix + tag + tail;
    assert prefix + tag + HexText(gid) + rest == data;
    assert OccursAt(data, tag, |prefix|);
    forall i: nat | i < |prefix|
      ensures !OccursAt(data, tag, i)
    {
      NoEarlierOccurrence(prefix, tag, tail, i);
    }
    assert FirstOccurrence(data, tag, 0) == Some(|prefix|);
    assert data[|prefix| + |tag|..] == tail && tail[..2 * GID_SIZE] == HexText(gid);
    HexReadBack(gid);
  }

  method EncodeEndpointGid(gid: seq<byte>, tag: string) returns (text: string)
    ensures text == tag + HexText(gid)
  {
    text := tag;
    assert gid[0..] == gid;
    for i := 0 to |gid|
      invariant text + HexText(gid[i..]) == tag + HexText(gid)
    {
      assert gid[i..][1..] == gid[i + 1..];
      text := text + [HexDigit(gid[i] / 16), HexDigit(gid[i] % 16)];
    }
    assert gid[|gid|..] == [];
  }

  lemma {:induction false} HexValuesAt(hex: string, k: nat)
    requires 2 * k + 1 < |hex|
    ensures HexValues(hex)[k] == HexPairValue(hex[2 * k], hex[2 * k + 1])
  {
    hide HexPairValue;
    if k > 0 {
      HexValuesAt(hex[2..], k - 1);
    }
  }

  /** Fills the GID in place; it stays untouched unless so many digits follow the tag. */
  method ParseEndpointGid(data: string, tag: string, gid: array<byte>) returns (ok: bool)
    requires gid.Length == GID_SIZE
    modifies gid
    ensures ok <==> ParseGid(data, tag).Some?
    ensures gid[..] == if ok then ParseGid(data, tag).value else old(gid[..])
  {
    if |data| < |tag| {
      return false;
    }
    var pos := FirstOccurrence(data, tag, 0);
    if pos.None? {
      return false;
    }
    var hex := data[pos.value + |tag|..];
    if |hex| < 2 * GID_SIZE {
      return false;
    }
    hex := hex[..2 * GID_SIZE];
    hide HexValues, HexPairValue;
    for i := 0 to GID_SIZE
      invariant forall k :: 0 <= k < i ==> gid[k] == HexPairValue(hex[2 * k], hex[2 * k + 1])
    {
      gid[i] := HexPairValue(hex[2 * i], hex[2 * i + 1]);
    }
    forall k | 0 <= k < GID_SIZE
      ensures gid[k] == HexValues(hex)[k]
    {
      HexValuesAt(hex, k);
    }
    ok := true;
  }
}
