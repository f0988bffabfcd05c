/**
 Which channel a buffer-aware subscription opens, what it advertises, and which channel a
 publisher picks when it reads the advertisement.
 */
module ChannelSelection {
  import opened EndpointRegistry
  import opened BufferPublishers
  import opened UserData

  // ---------------------------------------------------------------------------------------
  // acceptable_buffer_backends
  // ---------------------------------------------------------------------------------------

  predicate Blank(c: char)
  {
    c == ' ' || c == '\t'
  }

  function TrimLeft(s: string): string
  {
    if s == "" || !Blank(s[0]) then s else TrimLeft(s[1..])
  }

  function TrimRight(s: string): string
  {
    if s == "" || !Blank(s[|s| - 1]) then s else TrimRight(s[..|s| - 1])
  }

  function Trim(s: string): string
  {
    TrimRight(TrimLeft(s))
  }

  /** The comma-separated words, without surrounding blanks and without empty ones. */
  function Requested(s: string): seq<string>
    decreases |s|
  {
    if s == "" then []
    else
      var comma := Find(s, ',');
      var word := Trim(s[..comma]);
      (if word == "" then [] else [word]) + Requested(if comma == |s| then "" else s[comma + 1..])
  }

  predicate AllBlank(s: string)
  {
    forall i :: 0 <= i < |s| ==> Blank(s[i])
  }

  /** A word with blanks around it, or nothing but blanks. */
  datatype Padded = Padded(left: string, word: string, right: string) {
    predicate Valid() {
      && AllBlank(left) && AllBlank(right) && ',' !in word
      && (word != "" ==> !Blank(word[0]) && !Blank(word[|word| - 1]))
    }

    function Text(): string {
      left + word + right
    }
  }

  function ListText(items: seq<Padded>): string
  {
    if items == [] then ""
    else if |items| == 1 then items[0].Text()
    else items[0].Text() + "," + ListText(items[1..])
  }

  /** The words that were listed. */
  function Words(items: seq<Padded>): seq<string>
  {
    if items == [] then [] else (if items[0].word == "" then [] else [items[0].word]) + Words(items[1..])
  }

  lemma {:induction false} TrimLeftPadded(left: string, rest: string)
    requires AllBlank(left) && rest != "" && !Blank(rest[0])
    ensures TrimLeft(left + rest) == rest
  {
    if left == "" {
      assert left + rest == rest;
    } else {
      assert (left + rest)[1..] == left[1..] + rest;
      TrimLeftPadded(left[1..], rest);
    }
  }

  lemma {:induction false} TrimRightPadded(rest: string, right: string)
    requires AllBlank(right) && rest != "" && !Blank(rest[|rest| - 1])
    ensures TrimRight(rest + right) == rest
  {
    if right == "" {
      assert rest + right == rest;
    } else {
      var n := |right| - 1;
      assert (rest + right)[..|rest| + n] == rest + right[..n];
      TrimRightPadded(rest, right[..n]);
    }
  }

  lemma {:induction false} BlankTrimmed(s: string)
    requires AllBlank(s)
    ensures TrimLeft(s) == ""
  {
    if s != "" {
      BlankTrimmed(s[1..]);
    }
  }

  lemma PaddedTrimmed(x: Padded)
    requires x.Valid()
    ensures Trim(x.Text()) == x.word
    ensures ',' !in x.Text()
  {
    assert x.Text() == x.left + (x.word + x.right);
    if x.word == "" {
      assert x.Text() == x.left + x.right;
      BlankTrimmed(x.Text());
    } else {
      assert (x.word + x.right)[0] == x.word[0];
      TrimLeftPadded(x.left, x.word + x.right);
      TrimRightPadded(x.word, x.right);
    }
  }

  /** Whatever blanks surround them, the words of the option are the words that were listed. */
  lemma {:induction false} WordsReadBack(items: seq<Padded>)
    requires forall i :: 0 <= i < |items| ==> items[i].Valid()
    ensures Requested(ListText(items)) == Words(items)
  {
    if items != [] {
      var text := items[0].Text();
      PaddedTrimmed(items[0]);
      hide TrimLeft, TrimRight;
      if |items| == 1 {
        FindNone(text, ',');
        assert text[..|text|] == text && items[1..] == [];
        assert Requested("") == [];
      } else {
        var rest := ListText(items[1..]);
        assert ListText(items) == text + [','] + rest;
        FindFirst(text, ',', rest);
        assert ListText(items)[..|text|] == text && ListText(items)[|text| + 1..] == rest;
        WordsReadBack(items[1..]);
      }
    }
  }

  lemma TwoItems(x: Padded, y: Padded)
    requires x.Valid() && y.Valid() && x.word != "" && y.word != ""
    ensures Requested(x.Text() + "," + y.Text()) == [x.word, y.word]
  {
    var items := [x, y];
    assert items[1..] == [y] && [y][1..] == [];
    assert ListText([y]) == y.Text() && Words([y]) == [y.word];
    assert ListText(items) == x.Text() + "," + y.Text() && Words(items) == [x.word, y.word];
    hide ListText, Words, Requested;
    WordsReadBack(items);
  }

  /** Spaces and tabs are blanks, and commas part the words. */
  lemma OptionExample()
    ensures Requested(" cpu,\tcuda ") == ["cpu", "cuda"]
  {
    hide Requested;
    var x, y := Padded(" ", "cpu", ""), Padded("\t", "cuda", " ");
    TwoItems(x, y);
    assert x.Text() + "," + y.Text() == " cpu,\tcuda ";
  }

  // ---------------------------------------------------------------------------------------
  // Selection
  // ---------------------------------------------------------------------------------------

  predicate UsesAll(requested: seq<string>)
  {
    "any" in requested
  }

  /** Nothing, or nothing but "cpu", was requested. */
  predicate SelectsCpu(requested: seq<string>)
  {
    !UsesAll(requested) && forall i :: 0 <= i < |requested| ==> requested[i] == "cpu"
  }

  /** What the subscription advertises. */
  function Selected(all: map<string, string>, requested: seq<string>): map<string, string>
  {
    if SelectsCpu(requested) then map["cpu" := ""]
    else if UsesAll(requested) then all
    else map name | name in all && name in requested && name != "cpu" :: all[name]
  }

  /** Exactly the words asked for that are installed and are not "cpu", as they are installed. */
  ghost predicate Chosen(advertised: map<string, string>, all: map<string, string>, words: seq<string>)
  {
    && (forall name :: name in advertised <==> name in words && name in all && name != "cpu")
    && forall name :: name in advertised ==> name in all && advertised[name] == all[name]
  }

  ghost predicate OthersThanCpu(words: seq<string>)
  {
    exists word :: word in words && word != "cpu"
  }

  lemma CpuIsAll(words: seq<string>)
    ensures SelectsCpu(words) <==> !OthersThanCpu(words)
  {
    if OthersThanCpu(words) {
      var word :| word in words && word != "cpu";
    } else {
      assert forall i :: 0 <= i < |words| ==> words[i] in words;
    }
  }

  lemma AnyIsAnother(words: seq<string>)
    requires UsesAll(words)
    ensures OthersThanCpu(words)
  {
    assert "any" in words && "any" != "cpu";
  }

  lemma SelectedAre(all: map<string, string>, words: seq<string>)
    ensures !OthersThanCpu(words) ==> Selected(all, words) == map["cpu" := ""]
    ensures UsesAll(words) ==> Selected(all, words) == all
    ensures !UsesAll(words) && OthersThanCpu(words) ==> Chosen(Selected(all, words), all, words)
  {
    CpuIsAll(words);
    if UsesAll(words) {
      AnyIsAnother(words);
    }
    hide SelectsCpu, UsesAll, OthersThanCpu;
  }

  /**
   What is advertised for a list of words: the CPU alone when no word, or no other, was listed;
   all that is installed when "any" was; and otherwise what was listed, as far as it is installed.
   */
  lemma AdvertisedExactly(all: map<string, string>, items: seq<Padded>)
    requires forall i :: 0 <= i < |items| ==> items[i].Valid()
    ensures var words, advertised := Words(items), Selected(all, Requested(ListText(items)));
      && (!OthersThanCpu(words) ==> advertised == map["cpu" := ""])
      && ("any" in words ==> advertised == all)
      && ("any" !in words && OthersThanCpu(words) ==> Chosen(advertised, all, words))
  {
    WordsReadBack(items);
    SelectedAre(all, Words(items));
    hide Requested, Words, ListText, SelectsCpu, OthersThanCpu, Selected, Chosen;
  }

  lemma RequestedStep(done: seq<string>, s: string)
    requires s != ""
    ensures var comma := Find(s, ',');
      var word := Trim(s[..comma]);
      done + Requested(s) == (if word == "" then done else done + [word]) + Requested(if comma == |s| then "" else s[comma + 1..])
  {
    hide Trim, Find;
    var comma := Find(s, ',');
    var word, rest := Trim(s[..comma]), Requested(if comma == |s| then "" else s[comma + 1..]);
    assert Requested(s) == (if word == "" then [] else [word]) + rest;
    hide Requested;
    PutInFront(done, if word == "" then [] else [word], rest);
    assert word == "" ==> done + [] == done;
  }

  lemma PutInFront(a: seq<string>, b: seq<string>, c: seq<string>)
    ensures a + (b + c) == (a + b) + c
  {
  }

  method ParseRequested(option: string) returns (requested: seq<string>)
    ensures requested == Requested(option)
  {
    requested := [];
    var left := option;
    assert requested + Requested(left) == Requested(option) && Requested("") == [];
    hide Requested, Trim;
    while left != ""
      invariant requested + Requested(left) == Requested(option)
      decreases |left|
    {
      RequestedStep(requested, left);
      var comma := Find(left, ',');
      var word := Trim(left[..comma]);
      if word != "" {
        requested := requested + [word];
      }
      left := if comma == |left| then "" else left[comma + 1..];
    }
    assert requested + [] == requested;
  }

  /** The selection of create_subscription, over the installed backends. */
  method SelectBackends(all: map<string, string>, option: string)
    returns (cpuOnly: bool, filteredBackends: map<string, string>, myBackendTypes: seq<string>)
    ensures cpuOnly <==> SelectsCpu(Requested(option))
    ensures filteredBackends == Selected(all, Requested(option))
    ensures forall name :: name in myBackendTypes <==> name in filteredBackends
    ensures cpuOnly <==> !OthersThanCpu(Requested(option))
    ensures cpuOnly ==> filteredBackends == map["cpu" := ""]
    ensures !cpuOnly && "any" in Requested(option) ==> filteredBackends == all
    ensures !cpuOnly && "any" !in Requested(option) ==> Chosen(filteredBackends, all, Requested(option))
  {
    hide Requested;
    var requested := ParseRequested(option);
    var useAll := false;
    for i := 0 to |requested|
      invariant useAll <==> "any" in requested[..i]
    {
      if requested[i] == "any" {
        useAll := true;
        break;
      }
    }
    var allCpu := true;
    for i := 0 to |requested|
      invariant allCpu <==> forall k :: 0 <= k < i ==> requested[k] == "cpu"
    {
      allCpu := allCpu && requested[i] == "cpu";
    }
    cpuOnly := !useAll && (|requested| == 0 || allCpu);
    CpuIsAll(requested);
    filteredBackends, myBackendTypes := map[], [];
    if cpuOnly {
      myBackendTypes := ["cpu"];
      filteredBackends := map["cpu" := ""];
    } else if useAll {
      filteredBackends := all;
      myBackendTypes := KeysOf(all);
    } else {
      filteredBackends, myBackendTypes := FilterInstalled(all, requested);
    }
  }

  method KeysOf(all: map<string, string>) returns (names: seq<string>)
    ensures forall name :: name in names <==> name in all
  {
    names := [];
    var left := all.Keys;
    while left != {}
      invariant left <= all.Keys
      invariant forall name :: name in names <==> name in all && name !in left
      decreases left
    {
      var name :| name in left;
      names := names + [name];
      left := left - {name};
    }
  }

  method FilterInstalled(all: map<string, string>, requested: seq<string>)
    returns (filtered: map<string, string>, names: seq<string>)
    ensures filtered == map name | name in all && name in requested && name != "cpu" :: all[name]
    ensures forall name :: name in names <==> name in filtered
  {
    filtered, names := map[], [];
    for i := 0 to |requested|
      invariant filtered == map name | name in all && name in requested[..i] && name != "cpu" :: all[name]
      invariant forall name :: name in names <==> name in filtered
    {
      var name := requested[i];
      assert requested[..i + 1] == requested[..i] + [name];
      if name == "cpu" {
        continue;
      }
      if name in all {
        filtered := filtered[name := all[name]];
        names := names + [name];
      }
    }
    assert requested[..|requested|] == requested;
  }

  // ---------------------------------------------------------------------------------------
  // Agreement
  // ---------------------------------------------------------------------------------------

  datatype Channel = SharedCpu | Accelerated

  /** The reader the subscription creates. */
  function Opens(requested: seq<string>): Channel
  {
    if SelectsCpu(requested) then SharedCpu else Accelerated
  }

  /** The publisher's choice; an empty advertisement never reaches its callback. */
  function Picks(advertised: map<string, string>): Channel
  {
    if OnlyCpu(advertised) then SharedCpu else Accelerated
  }

  /**
   The shared channel is opened when nothing but "cpu" was asked for, and picked when nothing
   but "cpu" is advertised.
   */
  lemma SharedExactly(words: seq<string>, advertised: map<string, string>)
    ensures Opens(words) == SharedCpu <==> !OthersThanCpu(words)
    ensures Picks(advertised) == SharedCpu <==> forall name :: name in advertised ==> name == "cpu"
  {
    CpuIsAll(words);
    OnlyCpuMeans(advertised);
    hide SelectsCpu, OthersThanCpu, OnlyCpu;
  }

  /** Publisher and subscriber meet exactly unless "any" was asked for with only "cpu" installed. */
  lemma ChannelsMeet(all: map<string, string>, requested: seq<string>)
    requires Selected(all, requested) != map[]
    ensures Picks(Selected(all, requested)) == Opens(requested) <==> !(UsesAll(requested) && all.Keys == {"cpu"})
  {
    var selected := Selected(all, requested);
    if SelectsCpu(requested) {
      assert selected.Keys == {"cpu"};
      OneKey(selected, "cpu");
    } else if UsesAll(requested) {
      if "cpu" in all {
        OneKey(all, "cpu");
      }
    }
  }

  lemma OneKey(m: map<string, string>, k: string)
    requires k in m
    ensures |m| == 1 <==> m.Keys == {k}
  {
    assert |m| == |m.Keys|;
    assert m.Keys == {k} + (m.Keys - {k});
  }

  /**
   The same through USER_DATA: what a publisher's context reads behind the type hashes is what
   was selected. An empty selection writes no entry, and then nothing is read either.
   */
  lemma ChannelsMeetThroughUserData(all: map<string, string>, option: string, row: seq<Backend>, others: seq<(string, string)>, rest: string)
    requires Lists(row, Selected(all, Requested(option))) && Separable(row)
    requires OtherEntries(others) && BUFFER_BACKEND_KEY !in ParseKeyValue(rest)
    ensures var requested := Requested(option);
      var read := ParseBackends(EntriesText(others) + (EncodeBackends(row) + rest));
      && read == Selected(all, requested)
      && (read == map[] <==> EncodeBackends(row) == "")
      && (read != map[] ==> (Picks(read) == Opens(requested) <==> !(UsesAll(requested) && all.Keys == {"cpu"})))
  {
    hide Requested, ParseBackends, Lists, Separable, OtherEntries, ParseKeyValue, Selected, EncodeBackends, Opens,
      Picks;
    var requested := Requested(option);
    BackendsReadBack(row, Selected(all, requested), others, rest);
    EmptyWritesNothing(row);
    RowOfNothing(row, Selected(all, requested));
    if Selected(all, requested) != map[] {
      ChannelsMeet(all, requested);
    }
  }

  lemma RowOfNothing(row: seq<Backend>, backends: map<string, string>)
    requires Lists(row, backends)
    ensures row == [] <==> backends == map[]
  {
    if backends != map[] {
      var name :| name in backends;
    }
    if row != [] {
      assert row[0].0 in backends;
    }
  }

  // ---------------------------------------------------------------------------------------
  // Topic names
  // ---------------------------------------------------------------------------------------

  function CpuTopic(base: string): string
  {
    base + "/_buf_cpu"
  }

  /** The topic both sides name after the subscriber; `hex` prints a GID. */
  function OwnTopic(base: string, hex: Gid -> string, subscriber: Gid): string
  {
    base + "/_buf/" + hex(subscriber)
  }

  /** Distinct subscribers have distinct channels of their own, none of them the shared one. */
  lemma OwnTopicsAreOwn(base: string, hex: Gid -> string, a: Gid, b: Gid)
    requires forall x, y :: hex(x) == hex(y) ==> x == y
    ensures OwnTopic(base, hex, a) == OwnTopic(base, hex, b) <==> a == b
    ensures OwnTopic(base, hex, a) != CpuTopic(base)
    ensures CpuTopic(base)[|base|..] == "/_buf_cpu" && OwnTopic(base, hex, a)[|base|..] == "/_buf/" + hex(a)
  {
    var n := |base| + 6;
    assert OwnTopic(base, hex, a)[n..] == hex(a) && OwnTopic(base, hex, b)[n..] == hex(b);
    assert OwnTopic(base, hex, a)[n - 1] == '/' && CpuTopic(base)[n - 1] == '_';
  }
}
