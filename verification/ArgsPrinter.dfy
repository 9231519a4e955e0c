/** The printer of command lines, which `Parser::parse` inverts. */
module ArgsPrinter {
  import opened Prelude
  import opened ArgsParser

  /** What one or two words of a command line say. */
  datatype Item =
    | Cluster(flags: string)             // -abc
    | Assign(key: string, value: string) // --key=value
    | Pair(key: string, value: string)   // --key value
    | Bare(key: string)                  // --key
    | Free(text: string)
  {
    predicate Printable()
    {
      match this
      case Cluster(flags) => '-' !in flags && '=' !in flags
      case Assign(key, value) => '=' !in key && value != ""
      case Pair(key, value) => '=' !in key && key != "" && value != "" && value[0] != '-'
      case Bare(key) => '=' !in key && key != ""
      case Free(text) => text != "" ==> text[0] !in {'-', '='}
    }

    function Words(): seq<string>
    {
      match this
      case Cluster(flags) => ["-" + flags]
      case Assign(key, value) => ["--" + (key + "=" + value)]
      case Pair(key, value) => ["--" + key, value]
      case Bare(key) => ["--" + key]
      case Free(text) => [text]
    }

    /** The assignments that the item stands for. */
    function Settings(): seq<(string, Guess)>
    {
      match this
      case Cluster(flags) => seq(|flags|, i requires 0 <= i < |flags| => ([flags[i]], Truth(true)))
      case Assign(key, value) => [Setting(key, value)]
      case Pair(key, value) => [Setting(key, value)]
      case Bare(key) => [Setting(key, "")]
      case Free(_) => []
    }

    function Texts(): seq<string>
    {
      if Free? then [text] else []
    }
  }

  /** Items, and the words after a `--` when there is one. */
  datatype CommandLine = CommandLine(items: seq<Item>, rest: Option<seq<string>>)
  {
    /** A bare key must not be followed by a word that would be taken for its value. */
    predicate Printable()
    {
      && (forall i :: 0 <= i < |items| ==> items[i].Printable())
      && (forall i :: 0 < i < |items| && items[i - 1].Bare? ==> !items[i].Free?)
      && (rest.Some? ==> forall w <- rest.value :: !StartsWith(w, '-'))
    }

    function Words(): seq<string>
    {
      WordsOf(items) + if rest.Some? then ["--"] + rest.value else []
    }

    function Denotes(): Args
    {
      Args(Put(map[], SettingsOf(items)), TextsOf(items) + if rest.Some? then rest.value else [])
    }
  }

  function WordsOf(items: seq<Item>): seq<string>
  {
    if items == [] then [] else items[0].Words() + WordsOf(items[1..])
  }

  function SettingsOf(items: seq<Item>): seq<(string, Guess)>
  {
    if items == [] then [] else items[0].Settings() + SettingsOf(items[1..])
  }

  function TextsOf(items: seq<Item>): seq<string>
  {
    if items == [] then [] else items[0].Texts() + TextsOf(items[1..])
  }

  function Put(m: map<string, Guess>, settings: seq<(string, Guess)>): map<string, Guess>
    decreases settings
  {
    if settings == [] then m else Put(m[settings[0].0 := settings[0].1], settings[1..])
  }

  /** A key that is never written keeps its value, or stays absent. */
  lemma {:induction false} OtherKeysKept(m: map<string, Guess>, settings: seq<(string, Guess)>, key: string)
    requires forall s <- settings :: s.0 != key
    ensures key in Put(m, settings) <==> key in m
    ensures key in m ==> Put(m, settings)[key] == m[key]
    decreases settings
  {
    if settings != [] {
      assert settings[0].0 != key;
      OtherKeysKept(m[settings[0].0 := settings[0].1], settings[1..], key);
    }
  }

  /** The last write to a key wins. */
  lemma {:induction false} LastWriteWins(m: map<string, Guess>, settings: seq<(string, Guess)>, i: nat)
    requires i < |settings| && forall j :: i < j < |settings| ==> settings[j].0 != settings[i].0
    ensures settings[i].0 in Put(m, settings) && Put(m, settings)[settings[i].0] == settings[i].1
    decreases settings
  {
    var m', tail := m[settings[0].0 := settings[0].1], settings[1..];
    if i == 0 {
      OtherKeysKept(m', tail, settings[0].0);
    } else {
      LastWriteWins(m', tail, i - 1);
    }
  }

  lemma {:induction false} PutAppend(m: map<string, Guess>, a: seq<(string, Guess)>, b: seq<(string, Guess)>)
    ensures Put(m, a + b) == Put(Put(m, a), b)
    decreases a
  {
    if a == [] {
      assert a + b == b;
    } else {
      assert (a + b)[1..] == a[1..] + b;
      PutAppend(m[a[0].0 := a[0].1], a[1..], b);
    }
  }

  lemma {:induction false} FlagsArePut(args: Args, flags: string)
    ensures AddFlags(args, flags) == args.(values := Put(args.values, Cluster(flags).Settings()))
    decreases flags
  {
    if flags != "" {
      FlagsArePut(args.(values := args.values[[flags[0]] := Truth(true)]), flags[1..]);
      assert Cluster(flags).Settings()[1..] == Cluster(flags[1..]).Settings();
    }
  }

  // ----- Print, then parse ---------------------------------------------------------------------

  /** The arguments so far, once a pending key has been given its empty value. */
  function Settled(p: Progress): Args
  {
    if p.state.AwaitingValue? then BeforeDash(p) else p.args
  }

  function Extend(args: Args, cl: CommandLine): Args
  {
    Args(Put(args.values, SettingsOf(cl.items)),
         args.freeform + TextsOf(cl.items) + if cl.rest.Some? then cl.rest.value else [])
  }

  /** Words without a dash in front are all freeform after a `--`, whatever follows. */
  lemma {:induction false} ParseRest(p: Progress, words: seq<string>, tail: seq<string>, offset: nat) returns (offset': nat)
    requires p.state.OnlyFreeform? && forall w <- words :: !StartsWith(w, '-')
    ensures ParseFrom(p, words + tail, offset) == ParseFrom(p.(args := p.args.(freeform := p.args.freeform + words)), tail, offset')
    decreases words
  {
    if words == [] {
      assert p.args.freeform + words == p.args.freeform && words + tail == tail;
      offset' := offset;
    } else {
      var q := p.(args := AddFreeform(p.args, words[0]));
      assert (words + tail)[1..] == words[1..] + tail;
      offset' := ParseRest(q, words[1..], tail, offset + |words[0]| + 1);
      assert q.args.freeform + words[1..] == p.args.freeform + words;
    }
  }

  /** A word of two dashes and a body. */
  lemma LongWord(p: Progress, body: string, last: bool)
    ensures WordStep(p, "--" + body, last) ==
            var args, e := BeforeDash(p), First(body, {'='});
            if body == "" then Next(Progress(OnlyFreeform, p.key, args))
            else if e + 1 < |body| then Next(Progress(Ready, body[..e], AddValue(args, body[..e], body[e + 1..])))
            else if e < |body| then Reject(MissingValue, |body| + 2)
            else if last then Next(Progress(Ready, body, AddValue(args, body, "")))
            else Next(Progress(AwaitingValue, body, args))
  {
    var word := "--" + body;
    AfterDashes(word, body);
    BehindEquals(word, body, First(body, {'='}));
  }

  lemma BehindEquals(word: string, body: string, e: nat)
    requires word == "--" + body && e <= |body|
    ensures |word| == |body| + 2 && (e == |body| ==> body[..e] == body)
    ensures e + 1 <= |body| ==> word[e + 3..] == body[e + 1..]
  {
  }

  /** A word of one dash and a cluster. */
  lemma ShortWord(p: Progress, flags: string, last: bool)
    requires '-' !in flags && '=' !in flags
    ensures WordStep(p, "-" + flags, last) == Next(Progress(Ready, p.key, AddFlags(BeforeDash(p), flags)))
  {
    var word := "-" + flags;
    assert word[1..] == flags;
    FirstIs(flags, {'-', '='}, |flags|);
  }

  /** What the parser's actions add for an item. */
  function AddItem(args: Args, item: Item): Args
  {
    match item
    case Cluster(flags) => AddFlags(args, flags)
    case Assign(key, value) => AddValue(args, key, value)
    case Pair(key, value) => AddValue(args, key, value)
    case Bare(key) => AddValue(args, key, "")
    case Free(text) => AddFreeform(args, text)
  }

  /** The last key after an item, and after several. */
  function KeyAfter(key: string, item: Item): string
  {
    if item.Cluster? || item.Free? then key else item.key
  }

  function LastKey(key: string, items: seq<Item>): string
    decreases items
  {
    if items == [] then key else LastKey(KeyAfter(key, items[0]), items[1..])
  }

  /** It is what the item denotes. */
  lemma ItemAdds(args: Args, item: Item)
    ensures AddItem(args, item) == Args(Put(args.values, item.Settings()), args.freeform + item.Texts())
  {
    if item.Cluster? {
      FlagsArePut(args, item.flags);
    }
    assert item.Texts() == [] ==> args.freeform + item.Texts() == args.freeform;
  }

  /** What the first word of an item does. */
  lemma ItemStep(p: Progress, item: Item, last: bool)
    requires item.Printable() && !p.state.OnlyFreeform? && (p.state.AwaitingValue? ==> !item.Free?)
    ensures var r := WordStep(p, item.Words()[0], last);
            && r.Next? && !r.progress.state.OnlyFreeform?
            && (r.progress.state.AwaitingValue? ==> !last && (item.Bare? || item.Pair?))
            && (item.Pair? && !last ==> r.progress == Progress(AwaitingValue, item.key, Settled(p)))
            && (!item.Pair? ==> Settled(r.progress) == AddItem(Settled(p), item))
            && (!item.Pair? ==> r.progress.key == KeyAfter(p.key, item))
  {
    match item
    case Cluster(flags) =>
      ShortWord(p, flags, last);
    case Assign(key, value) =>
      var body := key + "=" + value;
      assert item.Words()[0] == "--" + body;
      FirstIs(body, {'='}, |key|);
      assert body[..|key|] == key && body[|key| + 1..] == value;
      LongWord(p, body, last);
    case Pair(key, _) =>
      FirstIs(key, {'='}, |key|);
      LongWord(p, key, last);
    case Bare(key) =>
      FirstIs(key, {'='}, |key|);
      LongWord(p, key, last);
    case Free(_) =>
  }

  /** Parsing the words of an item adds its settings and its text, whatever follows. */
  lemma ItemParses(p: Progress, item: Item, rest: seq<string>, offset: nat) returns (q: Progress, offset': nat)
    requires item.Printable() && !p.state.OnlyFreeform? && (p.state.AwaitingValue? ==> !item.Free?)
    ensures ParseFrom(p, item.Words() + rest, offset) == ParseFrom(q, rest, offset')
    ensures !q.state.OnlyFreeform? && (q.state.AwaitingValue? ==> item.Bare? && rest != [])
    ensures Settled(q) == Args(Put(Settled(p).values, item.Settings()), Settled(p).freeform + item.Texts())
    ensures q.key == KeyAfter(p.key, item)
  {
    var words := item.Words() + rest;
    ItemStep(p, item, |words| == 1);
    q := WordStep(p, item.Words()[0], |words| == 1).progress;
    offset' := offset + |words[0]| + 1;
    ItemAdds(Settled(p), item);
    if item.Pair? {
      assert words[1..] == [item.value] + rest && words[1..][1..] == rest;
      q := Progress(Ready, item.key, AddValue(q.args, item.key, item.value));
      offset' := offset' + |item.value| + 1;
    } else {
      assert words[1..] == rest;
    }
  }

  lemma ParseTail(p: Progress, cl: CommandLine, tail: seq<string>, offset: nat) returns (q: Progress, offset': nat)
    requires cl.Printable() && cl.items == [] && !p.state.OnlyFreeform?
    requires p.state.AwaitingValue? || tail != [] ==> cl.rest.Some?
    ensures ParseFrom(p, cl.Words() + tail, offset) == ParseFrom(q, tail, offset')
    ensures q == Progress(if cl.rest.Some? then OnlyFreeform else Ready, p.key, Extend(Settled(p), cl))
  {
    var before, words := Settled(p), cl.Words() + tail;
    assert before.freeform + TextsOf(cl.items) == before.freeform;
    if cl.rest.Some? {
      assert words[0] == "--" + "" && words[1..] == cl.rest.value + tail;
      LongWord(p, "", |words| == 1);
      q := Progress(OnlyFreeform, p.key, before);
      offset' := ParseRest(q, cl.rest.value, tail, offset + 3);
      q := q.(args := before.(freeform := before.freeform + cl.rest.value));
    } else {
      assert before.freeform + [] == before.freeform && words == [];
      q, offset' := p, offset;
    }
  }

  lemma ExtendByItem(args: Args, cl: CommandLine)
    requires cl.items != []
    ensures var item := cl.items[0];
            Extend(Args(Put(args.values, item.Settings()), args.freeform + item.Texts()), cl.(items := cl.items[1..])) == Extend(args, cl)
  {
    var item, tail := cl.items[0], cl.(items := cl.items[1..]);
    PutAppend(args.values, item.Settings(), SettingsOf(tail.items));
    assert args.freeform + (item.Texts() + TextsOf(tail.items)) == args.freeform + item.Texts() + TextsOf(tail.items);
  }

  /**
   Parsing a printable command line adds exactly what it denotes, and leaves the last key; words may
   follow one that ends in a `--` and freeforms.
   */
  lemma {:induction false} ParsePrinted(p: Progress, cl: CommandLine, tail: seq<string>, offset: nat) returns (q: Progress, offset': nat)
    requires cl.Printable() && !p.state.OnlyFreeform? && (tail != [] ==> cl.rest.Some?)
    requires p.state.AwaitingValue? ==> cl.Words() != [] && (cl.items != [] ==> !cl.items[0].Free?)
    ensures ParseFrom(p, cl.Words() + tail, offset) == ParseFrom(q, tail, offset')
    ensures q == Progress(if cl.rest.Some? then OnlyFreeform else Ready, LastKey(p.key, cl.items), Extend(Settled(p), cl))
    decreases |cl.items|
  {
    if cl.items == [] {
      q, offset' := ParseTail(p, cl, tail, offset);
    } else {
      var item, next := cl.items[0], cl.(items := cl.items[1..]);
      assert cl.Words() + tail == item.Words() + (next.Words() + tail);
      q, offset' := ItemParses(p, item, next.Words() + tail, offset);
      ExtendByItem(Settled(p), cl);
      q, offset' := ParsePrinted(q, next, tail, offset');
    }
  }

  lemma ParseOne(cl: CommandLine) returns (args: Args)
    requires cl.Printable()
    ensures args == Extend(NO_ARGS, cl)
    ensures var r := ParseWords(cl.Words()); r.Accepted? && r.final.args == args
  {
    var q, offset' := ParsePrinted(Progress(Ready, "", NO_ARGS), cl, [], 0);
    assert cl.Words() + [] == cl.Words();
    args := q.args;
  }

  /** Print then parse is the identity on the meaning of command lines. */
  lemma PrintThenParse(cl: CommandLine)
    requires cl.Printable()
    ensures var r := ParseWords(cl.Words()); r.Accepted? && r.final.args == cl.Denotes()
  {
    var args := ParseOne(cl);
    ExtendNothing(cl);
  }

  lemma ExtendNothing(cl: CommandLine)
    ensures Extend(NO_ARGS, cl) == cl.Denotes()
  {
    assert NO_ARGS.freeform + TextsOf(cl.items) == TextsOf(cl.items);
  }

  // ----- Typed settings ------------------------------------------------------------------------

  /** A setting by what it means, and the ways to write it. */
  datatype Typed =
    | On(name: string)                  // --name
    | Off(name: string)                 // --no-name
    | Disabled(name: string)            // --disable-name
    | Say(name: string, b: bool)        // --name=true, --name=false
    | SayNo(name: string, b: bool)      // --no-name=true, --no-name=false
    | Given(name: string, text: string) // --name=text
    | Apart(name: string, text: string) // --name text
  {
    predicate Printable()
    {
      && '=' !in name && (!Given? ==> name != "")
      && (On? || Say? ==> !Prefixed(name))
      && (Given? || Apart? ==> text !in {"", "true", "false"})
      && (Apart? ==> !StartsWith(text, '-'))
    }

    function AsItem(): Item
    {
      match this
      case On(name) => Bare(name)
      case Off(name) => Bare("no-" + name)
      case Disabled(name) => Bare("disable-" + name)
      case Say(name, b) => Assign(name, if b then "true" else "false")
      case SayNo(name, b) => Assign("no-" + name, if b then "true" else "false")
      case Given(name, text) => Assign(name, text)
      case Apart(name, text) => Pair(name, text)
    }

    /** What it means. */
    function Means(): (string, Guess)
    {
      match this
      case On(name) => (name, Truth(true))
      case Off(name) => (name, Truth(false))
      case Disabled(name) => (name, Truth(false))
      case Say(name, b) => (name, Truth(b))
      case SayNo(name, b) => (name, Truth(!b))
      case Given(name, text) => (name, Numeric(text))
      case Apart(name, text) => (name, Numeric(text))
    }
  }

  predicate Prefixed(name: string)
  {
    (|name| > 3 && name[..3] == "no-") || (|name| > 8 && name[..8] == "disable-")
  }

  function ItemsOf(ts: seq<Typed>): seq<Item>
  {
    seq(|ts|, i requires 0 <= i < |ts| => ts[i].AsItem())
  }

  function MeaningsOf(ts: seq<Typed>): seq<(string, Guess)>
  {
    seq(|ts|, i requires 0 <= i < |ts| => ts[i].Means())
  }

  lemma TypedSetting(t: Typed)
    requires t.Printable()
    ensures t.AsItem().Printable() && t.AsItem().Settings() == [t.Means()] && t.AsItem().Texts() == []
  {
    match t
    case On(name) =>
      NegatingKeys(name, "");
      NotNegated(name);
    case Off(name) =>
      NegatingKeys("no-" + name, "");
      assert Negates("no-" + name, name);
    case Disabled(name) =>
      NegatingKeys("disable-" + name, "");
      assert Negates("disable-" + name, name);
    case Say(name, b) =>
      NegatingKeys(name, if b then "true" else "false");
      NotNegated(name);
    case SayNo(name, b) =>
      NegatingKeys("no-" + name, if b then "true" else "false");
      assert Negates("no-" + name, name);
    case Given(name, text) =>
      NegatingKeys(name, text);
    case Apart(name, text) =>
      NegatingKeys(name, text);
  }

  lemma NegatedIsPrefixed(name: string, rest: string)
    requires Negates(name, rest)
    ensures Prefixed(name)
  {
    assert name == "no-" + rest ==> name[..3] == "no-";
    assert name == "disable-" + rest ==> name[..8] == "disable-";
  }

  lemma NotNegated(name: string)
    requires !Prefixed(name)
    ensures forall rest :: !Negates(name, rest)
  {
    forall rest
      ensures !Negates(name, rest)
    {
      if Negates(name, rest) {
        NegatedIsPrefixed(name, rest);
      }
    }
  }

  lemma TypedCons(ts: seq<Typed>)
    requires ts != []
    ensures ItemsOf(ts) == [ts[0].AsItem()] + ItemsOf(ts[1..])
    ensures MeaningsOf(ts) == [ts[0].Means()] + MeaningsOf(ts[1..])
  {
  }

  lemma ItemCons(item: Item, items: seq<Item>)
    ensures SettingsOf([item] + items) == item.Settings() + SettingsOf(items)
    ensures TextsOf([item] + items) == item.Texts() + TextsOf(items)
  {
    assert ([item] + items)[1..] == items;
  }

  lemma {:induction false} TypedSettings(ts: seq<Typed>)
    requires forall t <- ts :: t.Printable()
    ensures SettingsOf(ItemsOf(ts)) == MeaningsOf(ts) && TextsOf(ItemsOf(ts)) == []
  {
    if ts != [] {
      TypedCons(ts);
      TypedSetting(ts[0]);
      TypedSettings(ts[1..]);
      ItemCons(ts[0].AsItem(), ItemsOf(ts[1..]));
      assert [] + TextsOf(ItemsOf(ts[1..])) == [];
    }
  }

  /** Settings written in any of these ways are read as what they mean, the last one of a name winning. */
  lemma TypedRoundTrip(ts: seq<Typed>)
    requires forall t <- ts :: t.Printable()
    ensures var r := ParseWords(WordsOf(ItemsOf(ts)));
            r.Accepted? && r.final.args == Args(Put(map[], MeaningsOf(ts)), [])
  {
    var cl := CommandLine(ItemsOf(ts), None);
    forall i | 0 <= i < |ts|
      ensures ts[i].AsItem().Printable()
    {
      TypedSetting(ts[i]);
    }
    TypedSettings(ts);
    PrintThenParse(cl);
    assert cl.Words() == WordsOf(ItemsOf(ts));
    assert TextsOf(cl.items) + [] == [];
  }

  // ----- Words that start with a dash after a `--` ---------------------------------------------

  /** Before a word that starts with a dash, the last key is given an empty value, pending or not. */
  lemma BeforeDashWord(p: Progress, words: seq<string>, offset: nat)
    requires words != [] && StartsWith(words[0], '-')
    ensures ParseFrom(p, words, offset) == ParseFrom(p.(state := Ready, args := BeforeDash(p)), words, offset)
  {
  }

  /** Each word adds at most one freeform, and none when it starts with a dash. */
  lemma {:induction false} FreeformBound(p: Progress, words: seq<string>, offset: nat)
    ensures var r := ParseFrom(p, words, offset);
            r.Accepted? ==>
              && |r.final.args.freeform| <= |p.args.freeform| + |words|
              && ((exists w <- words :: StartsWith(w, '-')) ==> |r.final.args.freeform| < |p.args.freeform| + |words|)
    decreases words
  {
    if words != [] {
      var step := WordStep(p, words[0], |words| == 1);
      if step.Next? {
        if StartsWith(words[0], '-') {
          FlagsArePut(BeforeDash(p), words[0][1..]);
        }
        FreeformBound(step.progress, words[1..], offset + |words[0]| + 1);
        assert forall w <- words :: w == words[0] || w in words[1..];
      }
    }
  }

  /** After a `--` the words are all freeform, and nothing else happens, exactly when none starts with a dash. */
  lemma FreeformOnlyExactly(p: Progress, words: seq<string>, offset: nat)
    requires p.state.OnlyFreeform?
    ensures ParseFrom(p, words, offset) == Accepted(p.(args := p.args.(freeform := p.args.freeform + words))) <==>
            forall w <- words :: !StartsWith(w, '-')
  {
    if forall w <- words :: !StartsWith(w, '-') {
      var offset' := ParseRest(p, words, [], offset);
      assert words + [] == words;
    } else {
      FreeformBound(p, words, offset);
    }
  }

  /** `-- -a`: the flag is not a freeform, and an empty key has become true. */
  lemma DashAfterSeparator()
    ensures ParseWords(["--", "-a"]) == Accepted(Progress(Ready, "", Args(map["" := Truth(true), "a" := Truth(true)], [])))
  {
    var p := Progress(OnlyFreeform, "", NO_ARGS);
    LongWord(Progress(Ready, "", NO_ARGS), "", false);
    assert "--" + "" == "--" && ["--", "-a"][1..] == ["-a"];
    ShortWord(p, "a", true);
    assert "-" + "a" == "-a";
    assert BeforeDash(p).values == map["" := Truth(true)];
    FlagsArePut(BeforeDash(p), "a");
    assert Cluster("a").Settings() == [("a", Truth(true))] && [("a", Truth(true))][1..] == [];
    assert ["-a"][1..] == [];
  }

  // ----- Whole lines: command lines one after the other ----------------------------------------

  /** Every command line but the last ends in freeforms, and every one but the first starts with a dash. */
  ghost predicate PrintableAll(cls: seq<CommandLine>)
  {
    && (forall cl <- cls :: cl.Printable())
    && (forall i :: 0 <= i < |cls| - 1 ==> cls[i].rest.Some?)
    && (forall i :: 0 < i < |cls| ==> StartsWithDash(cls[i]))
  }

  predicate StartsWithDash(cl: CommandLine) { cl.Words() != [] && StartsWith(cl.Words()[0], '-') }

  function WordsOfAll(cls: seq<CommandLine>): seq<string>
  {
    if cls == [] then [] else cls[0].Words() + WordsOfAll(cls[1..])
  }

  /** Between two command lines the last key gets an empty value. */
  function ExtendAll(args: Args, key: string, cls: seq<CommandLine>): Args
    requires cls != []
    decreases |cls|
  {
    var after, last := Extend(args, cls[0]), LastKey(key, cls[0].items);
    if |cls| == 1 then after else ExtendAll(AddValue(after, last, ""), last, cls[1..])
  }

  /** Parsing the words of several command lines adds exactly what they denote together. */
  lemma {:induction false} ParsePrintedAll(p: Progress, cls: seq<CommandLine>, offset: nat)
    requires p.state.Ready? && cls != [] && PrintableAll(cls)
    ensures var r := ParseFrom(p, WordsOfAll(cls), offset);
            r.Accepted? && r.final.args == ExtendAll(p.args, p.key, cls)
    decreases |cls|
  {
    var cl, next := cls[0], cls[1..];
    var tail := WordsOfAll(next);
    var q, offset' := ParsePrinted(p, cl, tail, offset);
    if next != [] {
      assert StartsWithDash(cls[1]) && tail[0] == next[0].Words()[0];
      BeforeDashWord(q, tail, offset');
      ParsePrintedAll(q.(state := Ready, args := BeforeDash(q)), next, offset');
    }
  }

  // ----- The converse: everything accepted is printed ------------------------------------------

  /** No word after a `--` starts with a dash (one that does leaves the freeform-only state). */
  predicate NoDashAfterSeparator(words: seq<string>)
  {
    forall i, j :: 0 <= i < j < |words| && words[i] == "--" ==> !StartsWith(words[j], '-')
  }

  /** The item that an accepted first word begins, and how many words it has. */
  function FirstItem(words: seq<string>): Item
    requires words != []
  {
    var word := words[0];
    if !StartsWith(word, '-') then Free(word)
    else if !StartsWith(word[1..], '-') then Cluster(word[1..])
    else
      var body := word[2..];
      var e := First(body, {'='});
      if e < |body| then Assign(body[..e], body[e + 1..])
      else if |words| > 1 && !StartsWith(words[1], '-') then Pair(body, words[1])
      else Bare(body)
  }

  /** A long word that is not rejected has an item. */
  lemma LongItemPrints(p: Progress, words: seq<string>, body: string)
    requires words != [] && words[0] == "--" + body && body != ""
    requires WordStep(p, words[0], |words| == 1).Next?
    requires |words| > 1 && words[1] == "" ==> '=' in body
    ensures var item := FirstItem(words); item.Printable() && item.Words() <= words
  {
    var word, e := words[0], First(body, {'='});
    LongWord(p, body, |words| == 1);
    assert word[1..] == "-" + body && word[2..] == body;
    if e < |body| {
      AssignPrints(body, e);
    } else {
      KeyItemPrints(words, body);
    }
  }

  lemma AfterDashes(word: string, body: string)
    requires word == "--" + body
    ensures StartsWith(word, '-') && StartsWith(word[1..], '-') && word[2..] == body
  {
  }

  lemma KeyItemIs(words: seq<string>, body: string)
    requires words != [] && words[0] == "--" + body && First(body, {'='}) == |body|
    ensures FirstItem(words) == if |words| > 1 && !StartsWith(words[1], '-') then Pair(body, words[1]) else Bare(body)
  {
    AfterDashes(words[0], body);
  }

  /** A key without an equals sign, with the next word for its value or without one. */
  lemma KeyItemPrints(words: seq<string>, body: string)
    requires words != [] && words[0] == "--" + body && body != "" && First(body, {'='}) == |body|
    requires |words| > 1 ==> words[1] != ""
    ensures var item := FirstItem(words); item.Printable() && item.Words() <= words
  {
    KeyItemIs(words, body);
    var item := FirstItem(words);
    if item.Pair? {
      assert words[..2] == item.Words();
    } else {
      assert words[..1] == item.Words();
    }
  }

  lemma AssignPrints(body: string, e: nat)
    requires e + 1 < |body| && body[e] == '=' && forall j :: 0 <= j < e ==> body[j] != '='
    ensures var item := Assign(body[..e], body[e + 1..]); item.Printable() && item.Words() == ["--" + body]
  {
    var item := Assign(body[..e], body[e + 1..]);
    assert item.Words() == ["--" + body] by {
      assert body[..e] + "=" + body[e + 1..] == body;
    }
    assert '=' !in item.key;
  }

  /** An accepted first word is the first word of that item. */
  lemma FirstItemPrints(p: Progress, words: seq<string>, offset: nat)
    requires p.state.Ready? && words != [] && words[0] != "--" && ParseFrom(p, words, offset).Accepted?
    ensures var item := FirstItem(words); item.Printable() && item.Words() <= words
  {
    var word := words[0];
    if StartsWith(word, '-') && StartsWith(word[1..], '-') {
      var body := word[2..];
      assert word == "--" + body;
      if |words| > 1 && words[1] == "" && '=' !in body {
        EmptyValueRejected(p, words, body, offset);
        assert false;
      }
      LongItemPrints(p, words, body);
    } else if StartsWith(word, '-') {
      assert word == "-" + word[1..];
    }
  }

  /** A key without a value does not accept an empty one from the next word. */
  lemma EmptyValueRejected(p: Progress, words: seq<string>, body: string, offset: nat)
    requires |words| > 1 && words[0] == "--" + body && body != "" && '=' !in body && words[1] == ""
    ensures ParseFrom(p, words, offset).Rejected?
  {
    FirstIs(body, {'='}, |body|);
    LongWord(p, body, false);
    assert words[1..][0] == "";
  }

  /** Takes the first item off accepted words; the rest is accepted from a ready state. */
  lemma TakeItem(p: Progress, words: seq<string>, offset: nat) returns (item: Item, tail: seq<string>, q: Progress, offset': nat)
    requires p.state.Ready? && words != [] && words[0] != "--" && ParseFrom(p, words, offset).Accepted?
    ensures item.Printable() && words == item.Words() + tail
    ensures item.Bare? && tail != [] ==> StartsWith(tail[0], '-')
    ensures q.state.Ready? && ParseFrom(q, tail, offset').Accepted?
  {
    item := FirstItem(words);
    FirstItemPrints(p, words, offset);
    tail := words[|item.Words()|..];
    assert words == item.Words() + tail;
    q, offset' := ItemParses(p, item, tail, offset);
    if q.state.AwaitingValue? {
      BeforeDashWord(q, tail, offset');
      q := q.(state := Ready, args := BeforeDash(q));
    }
  }

  /** The first word that starts with a dash, or the number of words. */
  function FirstDash(words: seq<string>): (n: nat)
    ensures n <= |words| && (forall i :: 0 <= i < n ==> !StartsWith(words[i], '-'))
    ensures n < |words| ==> StartsWith(words[n], '-')
  {
    if words == [] || StartsWith(words[0], '-') then 0 else 1 + FirstDash(words[1..])
  }

  /** Reads a command line off accepted words; what follows is accepted from a ready state. */
  lemma {:induction false} ReadLine(p: Progress, words: seq<string>, offset: nat)
      returns (cl: CommandLine, tail: seq<string>, q: Progress, offset': nat)
    requires p.state.Ready? && ParseFrom(p, words, offset).Accepted?
    ensures cl.Printable() && cl.Words() + tail == words && (words != [] ==> cl.Words() != [])
    ensures tail != [] ==> cl.rest.Some? && StartsWith(tail[0], '-')
    ensures q.state.Ready? && ParseFrom(q, tail, offset').Accepted?
    decreases |words|
  {
    if words == [] {
      cl, tail, q, offset' := CommandLine([], None), [], p, offset;
    } else if words[0] == "--" {
      cl, tail, q, offset' := ReadRest(p, words, offset);
    } else {
      var item;
      item, tail, q, offset' := TakeItem(p, words, offset);
      assert |tail| < |words|;
      var read := tail;
      var next;
      next, tail, q, offset' := ReadLine(q, read, offset');
      cl := PrependRead(item, next, read, tail);
    }
  }

  lemma PrependRead(item: Item, next: CommandLine, read: seq<string>, tail: seq<string>) returns (cl: CommandLine)
    requires item.Printable() && next.Printable() && next.Words() + tail == read && (read != [] ==> next.Words() != [])
    requires item.Bare? && read != [] ==> StartsWith(read[0], '-')
    ensures cl.Printable() && cl.Words() + tail == item.Words() + read && cl.Words() != [] && cl.rest == next.rest
  {
    cl := Prepend(item, next);
    assert cl.Words() + tail == item.Words() + (next.Words() + tail);
  }

  lemma SeparatorWords(words: seq<string>, rest: seq<string>, tail: seq<string>, n: nat)
    requires words != [] && words[0] == "--" && n <= |words[1..]| && rest == words[1..][..n] && tail == words[1..][n..]
    ensures (["--"] + rest) + tail == words
  {
    assert words == ["--"] + words[1..] && words[1..] == rest + tail;
  }

  /** A `--` and the freeforms after it. */
  lemma ReadRest(p: Progress, words: seq<string>, offset: nat)
      returns (cl: CommandLine, tail: seq<string>, q: Progress, offset': nat)
    requires p.state.Ready? && words != [] && words[0] == "--" && ParseFrom(p, words, offset).Accepted?
    ensures cl.Printable() && cl.items == [] && cl.rest.Some? && cl.Words() + tail == words
    ensures tail != [] ==> StartsWith(tail[0], '-')
    ensures q.state.Ready? && ParseFrom(q, tail, offset').Accepted?
  {
    var after := words[1..];
    var n := FirstDash(after);
    var rest := after[..n];
    cl, tail := CommandLine([], Some(rest)), after[n..];
    SeparatorWords(words, rest, tail, n);
    assert cl.Words() == ["--"] + rest;
    q, offset' := ParseTail(p, cl, tail, offset);
    if tail != [] {
      BeforeDashWord(q, tail, offset');
      q := q.(state := Ready, args := BeforeDash(q));
    } else {
      q := p;
    }
  }

  /** Reads command lines off accepted words until none are left. */
  lemma {:induction false} ReadBack(p: Progress, words: seq<string>, offset: nat) returns (cls: seq<CommandLine>)
    requires p.state.Ready? && ParseFrom(p, words, offset).Accepted?
    ensures cls != [] && PrintableAll(cls) && WordsOfAll(cls) == words
    ensures words != [] ==> cls[0].Words() != []
    decreases |words|
  {
    var cl, tail, q, offset' := ReadLine(p, words, offset);
    if tail == [] {
      cls := [cl];
      assert cls[1..] == [] && WordsOfAll([]) == [];
    } else {
      var next := ReadBack(q, tail, offset');
      assert tail[0] == next[0].Words()[0];
      cls := [cl] + next;
      assert cls[1..] == next;
    }
  }

  lemma Prepend(item: Item, tail: CommandLine) returns (cl: CommandLine)
    requires item.Printable() && tail.Printable()
    requires item.Bare? && tail.Words() != [] ==> StartsWith(tail.Words()[0], '-')
    ensures cl.Printable() && cl.Words() == item.Words() + tail.Words() && cl.rest == tail.rest
  {
    cl := tail.(items := [item] + tail.items);
    assert cl.items[1..] == tail.items;
    assert cl.Words() == item.Words() + tail.Words();
    if tail.items != [] {
      assert tail.Words()[0] == tail.items[0].Words()[0];
    }
    forall i | 0 < i < |cl.items| && cl.items[i - 1].Bare?
      ensures !cl.items[i].Free?
    {
      assert cl.items[i] == tail.items[i - 1];
      assert i > 1 ==> cl.items[i - 1] == tail.items[i - 2];
    }
  }

  /** The parser accepts exactly the printed forms of printable command lines, one after the other. */
  lemma AcceptsExactlyPrintedLines(words: seq<string>)
    ensures ParseWords(words).Accepted? <==>
            exists cls: seq<CommandLine> :: cls != [] && PrintableAll(cls) && WordsOfAll(cls) == words
  {
    if ParseWords(words).Accepted? {
      var cls := ReadBack(Progress(Ready, "", NO_ARGS), words, 0);
    }
    forall cls: seq<CommandLine> | cls != [] && PrintableAll(cls) && WordsOfAll(cls) == words
      ensures ParseWords(words).Accepted?
    {
      ParsePrintedAll(Progress(Ready, "", NO_ARGS), cls, 0);
    }
  }

  /** And of a single one, when no word after a `--` starts with a dash. */
  lemma AcceptsExactlyOneLine(words: seq<string>)
    requires NoDashAfterSeparator(words)
    ensures ParseWords(words).Accepted? <==> exists cl: CommandLine :: cl.Printable() && cl.Words() == words
  {
    if ParseWords(words).Accepted? {
      var cls := ReadBack(Progress(Ready, "", NO_ARGS), words, 0);
      if |cls| > 1 {
        TwoLines(cls);
        assert false;
      }
      assert cls[1..] == [] && cls[0].Words() + [] == words;
    }
    forall cl: CommandLine | cl.Printable() && cl.Words() == words
      ensures ParseWords(words).Accepted?
    {
      PrintThenParse(cl);
    }
  }

  /** A second command line starts with a dash after the separator of the first. */
  lemma TwoLines(cls: seq<CommandLine>)
    requires |cls| > 1 && PrintableAll(cls)
    ensures !NoDashAfterSeparator(WordsOfAll(cls))
  {
    var cl, tail := cls[0], WordsOfAll(cls[1..]);
    assert StartsWithDash(cls[1]) && tail[0] == cls[1].Words()[0];
    LateDash(WordsOf(cl.items), cl.rest.value, tail, WordsOfAll(cls));
  }

  lemma LateDash(before: seq<string>, rest: seq<string>, tail: seq<string>, words: seq<string>)
    requires words == (before + (["--"] + rest)) + tail && tail != [] && StartsWith(tail[0], '-')
    ensures !NoDashAfterSeparator(words)
  {
    assert words[|before|] == "--" && words[|before| + 1 + |rest|] == tail[0];
  }

  /** Whatever the words, a successful parse never ends awaiting a value. */
  lemma {:induction false} NeverEndsAwaiting(p: Progress, words: seq<string>, offset: nat)
    requires words != [] || !p.state.AwaitingValue?
    ensures var r := ParseFrom(p, words, offset); r.Accepted? ==> !r.final.state.AwaitingValue?
    decreases words
  {
    if words != [] {
      var step := WordStep(p, words[0], |words| == 1);
      if step.Next? {
        NeverEndsAwaiting(step.progress, words[1..], offset + |words[0]| + 1);
      }
    }
  }
}
