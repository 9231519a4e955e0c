/**
 The command line parser (`args::Parser`): the character machine that reads argv, and the word grammar
 that it implements.
 */
module ArgsParser {
  import opened Prelude

  /** What guessValue makes of a text; Numeric stands for whatever strtoll and strtod decide. */
  datatype Guess = Truth(b: bool) | Numeric(text: string)

  datatype Args = Args(values: map<string, Guess>, freeform: seq<string>)

  datatype ErrorKind = UnexpectedDash | UnexpectedEquals | MissingValue
  datatype Error = Error(kind: ErrorKind, offset: nat)

  const NO_ARGS := Args(map[], [])

  function GuessValue(text: string): (g: Guess)
  {
    if text == "" || text == "true" then Truth(true)
    else if text == "false" then Truth(false)
    else Numeric(text)
  }

  /** The name and value under which `--key` with `text` is stored: a truth value is negated by a prefix. */
  function Setting(key: string, text: string): (r: (string, Guess))
  {
    var v := GuessValue(text);
    if v.Truth? && |key| > 3 && key[..3] == "no-" then (key[3..], Truth(!v.b))
    else if v.Truth? && |key| > 8 && key[..8] == "disable-" then (key[8..], Truth(!v.b))
    else (key, v)
  }

  /** Exactly "", "true" and "false" are truth values, and the last one alone is false. */
  lemma TruthTexts(text: string)
    ensures GuessValue(text) == Truth(false) <==> text == "false"
    ensures GuessValue(text) == Truth(true) <==> text == "" || text == "true"
    ensures text !in {"", "true", "false"} ==> GuessValue(text) == Numeric(text)
  {
  }

  /** A key that a truth value is negated by, and what is left of it. */
  predicate Negates(key: string, rest: string)
  {
    rest != "" && (key == "no-" + rest || key == "disable-" + rest)
  }

  /** A negating key stores the negation of a truth value under the rest; every other key is kept. */
  lemma NegatingKeys(key: string, text: string)
    ensures forall rest :: Negates(key, rest) && text == "false" ==> Setting(key, text) == (rest, Truth(true))
    ensures forall rest :: Negates(key, rest) && text in {"", "true"} ==> Setting(key, text) == (rest, Truth(false))
    ensures text !in {"", "true", "false"} ==> Setting(key, text) == (key, Numeric(text))
    ensures (forall rest :: !Negates(key, rest)) && text in {"", "true", "false"} ==> Setting(key, text) == (key, Truth(text != "false"))
  {
    forall rest | Negates(key, rest)
      ensures (|key| > 3 && key[..3] == "no-" && key[3..] == rest) ||
              (|key| > 8 && key[..8] == "disable-" && key[8..] == rest && key[..3] != "no-")
    {
      assert key[0] == 'n' || key[0] == 'd';
    }
    if |key| > 3 && key[..3] == "no-" {
      assert key == "no-" + key[3..];
      assert Negates(key, key[3..]);
    } else if |key| > 8 && key[..8] == "disable-" {
      assert key == "disable-" + key[8..];
      assert Negates(key, key[8..]);
    }
  }

  function AddValue(args: Args, key: string, text: string): Args
  {
    args.(values := args.values[Setting(key, text).0 := Setting(key, text).1])
  }

  function AddFlags(args: Args, flags: string): Args
    decreases flags
  {
    if flags == "" then args
    else AddFlags(args.(values := args.values[[flags[0]] := Truth(true)]), flags[1..])
  }

  function AddFreeform(args: Args, text: string): Args
  {
    args.(freeform := args.freeform + [text])
  }

  // ----- The word grammar ----------------------------------------------------------------------

  /** The states in which a word may start. */
  datatype WordState = Ready | AwaitingValue | OnlyFreeform

  datatype Progress = Progress(state: WordState, key: string, args: Args)
  datatype WordResult = Next(progress: Progress) | Reject(kind: ErrorKind, at: nat)
  datatype Outcome = Accepted(final: Progress) | Rejected(error: Error)

  /** The first position of one of the characters in s, or the length of s. */
  function First(s: string, chars: set<char>): (i: nat)
    ensures i <= |s|
    ensures forall j :: 0 <= j < i ==> s[j] !in chars
    ensures i < |s| ==> s[i] in chars
  {
    if s == "" || s[0] in chars then 0 else 1 + First(s[1..], chars)
  }

  predicate StartsWith(s: string, c: char) { s != "" && s[0] == c }

  /** A word that starts with a dash first gives a pending key, or the last one, an empty value. */
  function BeforeDash(p: Progress): Args
  {
    if p.state.Ready? then p.args else AddValue(p.args, p.key, "")
  }

  /** One word of the command line; `last` says that no word follows. */
  function WordStep(p: Progress, word: string, last: bool): WordResult
  {
    if StartsWith(word, '-') then
      var args := BeforeDash(p);
      if StartsWith(word[1..], '-') then
        var e := First(word[2..], {'='});
        if |word| == 2 then Next(Progress(OnlyFreeform, p.key, args))
        else if e + 3 < |word| then Next(Progress(Ready, word[2..][..e], AddValue(args, word[2..][..e], word[e + 3..])))
        else if e + 2 < |word| then Reject(MissingValue, |word|)
        else if last then Next(Progress(Ready, word[2..], AddValue(args, word[2..], "")))
        else Next(Progress(AwaitingValue, word[2..], args))
      else
        var e := 1 + First(word[1..], {'-', '='});
        if e < |word| then Reject(if word[e] == '-' then UnexpectedDash else UnexpectedEquals, e)
        else Next(Progress(Ready, p.key, AddFlags(args, word[1..])))
    else match p.state
      case Ready =>
        if StartsWith(word, '=') then Reject(UnexpectedEquals, 0)
        else Next(p.(args := AddFreeform(p.args, word)))
      case AwaitingValue =>
        if word == "" then Reject(MissingValue, 0)
        else Next(Progress(Ready, p.key, AddValue(p.args, p.key, word)))
      case OnlyFreeform =>
        Next(p.(args := AddFreeform(p.args, word)))
  }

  /** The words of a command line in turn; `offset` counts the characters before them. */
  function ParseFrom(p: Progress, words: seq<string>, offset: nat): Outcome
    decreases words
  {
    if words == [] then Accepted(p)
    else match WordStep(p, words[0], |words| == 1)
      case Next(q) => ParseFrom(q, words[1..], offset + |words[0]| + 1)
      case Reject(kind, at) => Rejected(Error(kind, offset + at))
  }

  /** The characters of the first k words, and one more for the end of each. */
  function LengthOf(words: seq<string>, k: nat): nat
    requires k <= |words|
  {
    if k == 0 then 0 else LengthOf(words, k - 1) + |words[k - 1]| + 1
  }

  lemma {:induction false} LengthCons(words: seq<string>, k: nat)
    requires k < |words|
    ensures LengthOf(words, k + 1) == |words[0]| + 1 + LengthOf(words[1..], k)
  {
    if k > 0 {
      LengthCons(words, k - 1);
    }
  }

  /** What is known after k accepted words. */
  function After(p: Progress, words: seq<string>, k: nat): Option<Progress>
    requires k <= |words|
    decreases k
  {
    if k == 0 then Some(p)
    else match WordStep(p, words[0], |words| == 1)
      case Next(q) => After(q, words[1..], k - 1)
      case Reject(_, _) => None
  }

  /**
   An error is that of the first word that is not accepted: its kind and its place in the word, counted
   from the start of the first word.
   */
  lemma {:induction false} ErrorPlace(p: Progress, words: seq<string>, offset: nat) returns (k: nat, q: Progress)
    requires ParseFrom(p, words, offset).Rejected?
    ensures k < |words| && After(p, words, k) == Some(q)
    ensures var r := WordStep(q, words[k], k + 1 == |words|);
            r.Reject? && ParseFrom(p, words, offset).error == Error(r.kind, offset + LengthOf(words, k) + r.at)
    decreases words
  {
    var step := WordStep(p, words[0], |words| == 1);
    if step.Reject? {
      k, q := 0, p;
    } else {
      var offset' := offset + |words[0]| + 1;
      k, q := ErrorPlace(step.progress, words[1..], offset');
      LengthCons(words, k);
      k := k + 1;
    }
  }

  /** A word is rejected at its end for a missing value, and else at a dash or an equals sign. */
  lemma RejectedAt(p: Progress, word: string, last: bool)
    requires WordStep(p, word, last).Reject?
    ensures var r := WordStep(p, word, last);
            && r.at <= |word| && (r.kind == MissingValue <==> r.at == |word|)
            && (r.kind == UnexpectedDash <==> r.at < |word| && word[r.at] == '-')
            && (r.kind == UnexpectedEquals <==> r.at < |word| && word[r.at] == '=')
  {
  }

  function ParseWords(words: seq<string>): Outcome
  {
    ParseFrom(Progress(Ready, "", NO_ARGS), words, 0)
  }

  // ----- The character machine -----------------------------------------------------------------

  datatype CharState = Normal | Dash | DashDash | Value | Freeform | FreeformOnly

  function Lift(s: CharState): WordState
  {
    match s
    case Value => AwaitingValue
    case FreeformOnly => OnlyFreeform
    case _ => Ready
  }

  /** What the machine knows after reading the first `pos` characters of a word entered with p. */
  ghost predicate InWord(p: Progress, word: string, pos: nat, state: CharState, prev: nat, key: string, args: Args)
  {
    && prev <= pos <= |word|
    && if pos == 0 then
         prev == 0 && state in {Normal, Value, FreeformOnly} && p == Progress(Lift(state), key, args)
       else if word[0] != '-' then
         && prev == 0 && key == p.key && args == p.args
         && (match p.state
             case Ready => state == Freeform && word[0] != '='
             case AwaitingValue => state == Value
             case OnlyFreeform => state == FreeformOnly)
       else
         && args == BeforeDash(p)
         && (match state
             case Dash => prev == 1 && key == p.key && (forall j :: 1 <= j < pos ==> word[j] !in {'-', '='})
             case DashDash => prev == 2 && key == p.key && word[1] == '-' && (forall j :: 2 <= j < pos ==> word[j] != '=')
             case Value =>
               && 3 <= prev && word[1] == '-' && word[prev - 1] == '='
               && (forall j :: 2 <= j < prev - 1 ==> word[j] != '=')
               && key == word[2..prev - 1]
             case _ => false)
  }

  lemma FirstIs(s: string, chars: set<char>, i: nat)
    requires i <= |s| && (forall j :: 0 <= j < i ==> s[j] !in chars) && (i < |s| ==> s[i] in chars)
    ensures First(s, chars) == i
  {
  }

  /** The `add` action on a slice of the current word. */
  method Add(state: CharState, slice: string, key: string, args: Args) returns (key': string, args': Args)
    requires state != Normal
    ensures key' == if state == DashDash then slice else key
    ensures args' == match state
                     case Dash => AddFlags(args, slice)
                     case Value => AddValue(args, key, slice)
                     case Freeform => AddFreeform(args, slice)
                     case _ => args
  {
    key', args' := key, args;
    match state
    case Dash =>
      var start := 0;
      while start < |slice|
        invariant start <= |slice|
        invariant AddFlags(args, slice) == AddFlags(args', slice[start..])
      {
        args' := args'.(values := args'.values[[slice[start]] := Truth(true)]);
        start := start + 1;
      }
    case DashDash =>
      key' := slice;
    case Value =>
      var v := GuessValue(slice);
      if v.Truth? && |key| > 3 && key[..3] == "no-" {
        args' := args.(values := args.values[key[3..] := Truth(!v.b)]);
      } else if v.Truth? && |key| > 8 && key[..8] == "disable-" {
        args' := args.(values := args.values[key[8..] := Truth(!v.b)]);
      } else {
        args' := args.(values := args.values[key := v]);
      }
    case Freeform =>
      args' := args.(freeform := args.freeform + [slice]);
    case _ =>
  }

  /** The word grammar and the machine agree at the end of a word. */
  lemma EndOfWord(p: Progress, word: string, last: bool, state: CharState, prev: nat, key: string, args: Args)
    requires InWord(p, word, |word|, state, prev, key, args)
    ensures WordStep(p, word, last) ==
            match state
            case Normal => Next(Progress(Ready, key, AddFreeform(args, word[prev..])))
            case Freeform => Next(Progress(Ready, key, AddFreeform(args, word[prev..])))
            case FreeformOnly => Next(Progress(OnlyFreeform, key, AddFreeform(args, word[prev..])))
            case Dash => Next(Progress(Ready, key, AddFlags(args, word[prev..])))
            case DashDash =>
              if |word| == 2 then Next(Progress(OnlyFreeform, key, args))
              else if last then Next(Progress(Ready, word[prev..], AddValue(args, word[prev..], "")))
              else Next(Progress(AwaitingValue, word[prev..], args))
            case Value =>
              if prev == |word| then Reject(MissingValue, |word|)
              else Next(Progress(Ready, key, AddValue(args, key, word[prev..])))
  {
    assert word[0..] == word;
    match state
    case Dash => FirstIs(word[1..], {'-', '='}, |word| - 1);
    case DashDash => FirstIs(word[2..], {'='}, |word| - 2);
    case Value =>
      if word != "" && word[0] == '-' {
        FirstIs(word[2..], {'='}, prev - 3);
        assert word[2..][..prev - 3] == word[2..prev - 1];
      }
    case _ =>
  }

  /** A dash or an equals sign is rejected where the grammar rejects the word. */
  lemma UnexpectedCharacter(p: Progress, word: string, last: bool, pos: nat, state: CharState, prev: nat, key: string, args: Args)
    requires pos < |word| && InWord(p, word, pos, state, prev, key, args)
    requires if word[pos] == '-' then state == Dash && pos > 1 else word[pos] == '=' && state in {Normal, Dash}
    ensures WordStep(p, word, last) == Reject(if word[pos] == '-' then UnexpectedDash else UnexpectedEquals, pos)
  {
    if state == Dash {
      FirstIs(word[1..], {'-', '='}, pos - 1);
    }
  }

  /** The actions on the NUL at the end of a word. */
  method FinishWord(word: string, last: bool, state0: CharState, prev: nat, key0: string, args0: Args, off: nat, ghost p: Progress)
    returns (state: CharState, key: string, args: Args, error: Option<Error>)
    requires InWord(p, word, |word|, state0, prev, key0, args0)
    ensures match WordStep(p, word, last)
            case Next(q) => error == None && state in {Normal, Value, FreeformOnly} && q == Progress(Lift(state), key, args)
            case Reject(kind, at) => error == Some(Error(kind, off + at)) && args == NO_ARGS
  {
    EndOfWord(p, word, last, state0, prev, key0, args0);
    state, key, args, error := state0, key0, args0, None;
    var slice := word[prev..];
    match state
    case Normal =>
      key, args := Add(Freeform, slice, key, args);
    case Dash =>
      key, args := Add(Dash, slice, key, args);
      state := Normal;
    case DashDash =>
      if |word| == 2 {
        state := FreeformOnly;
      } else {
        key, args := Add(DashDash, slice, key, args);
        if last {
          key, args := Add(Value, "", key, args);
          state := Normal;
        } else {
          state := Value;
        }
      }
    case Freeform =>
      state := Normal;
      key, args := Add(Freeform, slice, key, args);
    case FreeformOnly =>
      key, args := Add(Freeform, slice, key, args);
    case Value =>
      if prev == |word| {
        args, error := NO_ARGS, Some(Error(MissingValue, off + |word|));
        return;
      }
      key, args := Add(Value, slice, key, args);
      state := Normal;
  }

  /** The inner loop: one word, character by character. Reading past the last character gives NUL. */
  method ReadWord(word: string, last: bool, state0: CharState, key0: string, args0: Args, off: nat)
    returns (state: CharState, key: string, args: Args, error: Option<Error>)
    requires '\0' !in word
    requires state0 in {Normal, Value, FreeformOnly}
    ensures match WordStep(Progress(Lift(state0), key0, args0), word, last)
            case Next(q) => error == None && state in {Normal, Value, FreeformOnly} && q == Progress(Lift(state), key, args)
            case Reject(kind, at) => error == Some(Error(kind, off + at)) && args == NO_ARGS
  {
    var arg, prev, done := 0, 0, false;
    state, key, args, error := state0, key0, args0, None;
    ghost var p := Progress(Lift(state0), key0, args0);
    while !done
      invariant error == None
      invariant arg <= |word| + 1 && (done <==> arg == |word| + 1)
      invariant !done ==> InWord(p, word, arg, state, prev, key, args)
      invariant done ==> state in {Normal, Value, FreeformOnly} && WordStep(p, word, last) == Next(Progress(Lift(state), key, args))
      decreases |word| + 1 - arg
    {
      var c := if arg < |word| then word[arg] else '\0';
      arg := arg + 1;
      if c == '-' {
        match state
        case Normal =>
          prev := arg;
          state := Dash;
        case Dash =>
          if prev == arg - 1 {
            prev := prev + 1;
            state := DashDash;
          } else {
            UnexpectedCharacter(p, word, last, arg - 1, state, prev, key, args);
            args, error := NO_ARGS, Some(Error(UnexpectedDash, off + arg - 1));
            return;
          }
        case _ =>
          if arg - 1 == 0 {
            key, args := Add(Value, "", key, args);
            prev := arg;
            state := Dash;
          }
      } else if c == '\0' {
        done := true;
        state, key, args, error := FinishWord(word, last, state, prev, key, args, off, p);
        if error.Some? {
          return;
        }
      } else if c == '=' {
        match state
        case Freeform =>
        case FreeformOnly =>
        case Value =>
        case DashDash =>
          key, args := Add(DashDash, word[prev..arg - 1], key, args);
          prev := arg;
          state := Value;
        case _ =>
          UnexpectedCharacter(p, word, last, arg - 1, state, prev, key, args);
          args, error := NO_ARGS, Some(Error(UnexpectedEquals, off + arg - 1));
          return;
      } else if state == Normal && arg - 1 == 0 {
        prev := arg - 1;
        state := Freeform;
      }
    }
  }

  /** The machine itself, on C strings. */
  method Parse(words: seq<string>) returns (args: Args, error: Option<Error>)
    requires forall w <- words :: '\0' !in w
    ensures match ParseWords(words)
            case Accepted(p) => args == p.args && error == None
            case Rejected(e) => args == NO_ARGS && error == Some(e)
  {
    var state, key := Normal, "";
    var off: nat := 0;
    args, error := NO_ARGS, None;
    for i := 0 to |words|
      invariant state in {Normal, Value, FreeformOnly} && error == None
      invariant ParseWords(words) == ParseFrom(Progress(Lift(state), key, args), words[i..], off)
    {
      assert '\0' !in words[i];
      assert words[i..][0] == words[i] && words[i..][1..] == words[i + 1..];
      state, key, args, error := ReadWord(words[i], i + 1 == |words|, state, key, args, off);
      if error.Some? {
        return;
      }
      off := off + |words[i]| + 1;
    }
    assert words[|words|..] == [];
  }
}
