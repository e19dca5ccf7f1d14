/** What a dependency string means (dice/libltdl/ltdl.c): every string is a list of items written with
    white space around them, and the two passes read exactly these items. */
module DeplibsLaws {
  import opened Wrappers
  import opened Deplibs
  import SearchPath
  import SearchPathLaws

  /** A search directory for linking or for running, a library by its short name, or a file. */
  datatype Item =
    | LinkDir(dir: string)
    | RunDir(dir: string)
    | Library(name: string)
    | File(name: string)

  function Spelled(item: Item): string
  {
    match item
    case LinkDir(dir) => "-L" + dir
    case RunDir(dir) => "-R" + dir
    case Library(name) => "-l" + name
    case File(name) => name
  }

  predicate White(s: string)
  {
    forall c :: c in s ==> c in " \t\n\r\U{000B}\U{000C}"
  }

  predicate Solid(s: string)
  {
    forall c :: c in s ==> c !in " \t\n\r\U{000B}\U{000C}"
  }

  /** What can be written as a single word; a file is not mistaken for one of the others. */
  predicate Wordlike(item: Item)
  {
    match item
    case LinkDir(dir) => Solid(dir)
    case RunDir(dir) => Solid(dir)
    case Library(name) => Solid(name)
    case File(name) => Solid(name) && name != "" && !(|name| >= 2 && name[0] == '-' && name[1] in "LRl")
  }

  /** The directories of the items, in order. */
  function Searched(items: seq<Item>): seq<string>
  {
    if items == [] then []
    else (if items[0].LinkDir? || items[0].RunDir? then [items[0].dir] else []) + Searched(items[1..])
  }

  /** What the items ask to be opened, in order. */
  function Wanted(items: seq<Item>): seq<string>
  {
    if items == [] then []
    else
      (match items[0]
       case Library(name) => ["lib" + name]
       case File(name) => [name]
       case _ => []) + Wanted(items[1..])
  }

  /** The items with white space in front of each and at the end. */
  function Written(items: seq<Item>, gaps: seq<string>): string
    requires |gaps| == |items| + 1
  {
    if items == [] then gaps[0] else gaps[0] + Spelled(items[0]) + Written(items[1..], gaps[1..])
  }

  /** White space, and some of it between any two words. */
  predicate Apart(gaps: seq<string>)
  {
    (forall k :: 0 <= k < |gaps| ==> White(gaps[k])) && (forall k :: 0 < k < |gaps| - 1 ==> gaps[k] != "")
  }

  predicate AllWordlike(items: seq<Item>)
  {
    forall k :: 0 <= k < |items| ==> Wordlike(items[k])
  }

  // ---------------------------------------------------------------- one word

  lemma SpacesAre(c: char)
    ensures IsSpace(c) <==> c in " \t\n\r\U{000B}\U{000C}"
  {
  }

  lemma SolidIsToken(s: string)
    ensures IsToken(s) <==> s != "" && Solid(s)
  {
    if IsToken(s) {
      forall c | c in s ensures c !in " \t\n\r\U{000B}\U{000C}" {
        var i :| 0 <= i < |s| && s[i] == c;
        SpacesAre(c);
      }
    }
    if Solid(s) {
      forall i | 0 <= i < |s| ensures !IsSpace(s[i]) { SpacesAre(s[i]); }
    }
  }

  lemma SpelledIsToken(item: Item)
    requires Wordlike(item)
    ensures IsToken(Spelled(item))
  {
    SolidIsToken(Spelled(item));
  }

  /** How a word is taken. */
  lemma WordTaken(item: Item)
    requires Wordlike(item)
    ensures var w := Spelled(item);
      match item
      case LinkDir(dir) => IsDirFlag(w) && w[2..] == dir
      case RunDir(dir) => IsDirFlag(w) && w[2..] == dir
      case Library(name) => !IsDirFlag(w) && LibName(w) == "lib" + name
      case File(name) => !IsDirFlag(w) && LibName(w) == name
  {
    var w := Spelled(item);
    if |w| >= 2 { assert w[..2] == [w[0], w[1]]; }
  }

  // ---------------------------------------------------------------- the words of a string

  function Words(items: seq<Item>): seq<string>
  {
    if items == [] then [] else [Spelled(items[0])] + Words(items[1..])
  }

  lemma {:induction false} GapSkipped(gap: string, rest: string)
    requires White(gap)
    ensures Tokens(gap + rest, 0) == Tokens(rest, 0)
  {
    hide Tokens;
    if gap == "" {
      assert gap + rest == rest;
    } else {
      var t := gap[1..] + rest;
      assert gap[0] in gap && gap + rest == [gap[0]] + t;
      forall c | c in gap[1..] ensures c in " \t\n\r\U{000B}\U{000C}" { assert c in gap; }
      SpacesAre(gap[0]);
      TokensAt([gap[0]] + t, 0);
      TokensShift([gap[0]] + t, 1, t, 0);
      GapSkipped(gap[1..], rest);
    }
  }

  lemma StartsWhite(items: seq<Item>, gaps: seq<string>)
    requires |gaps| == |items| + 1 && Apart(gaps) && (items != [] ==> gaps[0] != "")
    ensures var t := Written(items, gaps); t == "" || IsSpace(t[0])
  {
    if gaps[0] != "" {
      assert gaps[0][0] in gaps[0];
      SpacesAre(gaps[0][0]);
    }
  }

  lemma {:induction false} WordsRead(items: seq<Item>, gaps: seq<string>)
    requires |gaps| == |items| + 1 && Apart(gaps) && AllWordlike(items)
    ensures Tokens(Written(items, gaps), 0) == Words(items)
  {
    hide Tokens, White, IsToken;
    if items == [] {
      GapSkipped(gaps[0], "");
      TokensAt("", 0);
      assert gaps[0] + "" == gaps[0];
    } else {
      var (w, rest) := (Spelled(items[0]), Written(items[1..], gaps[1..]));
      SpelledIsToken(items[0]);
      StartsWhite(items[1..], gaps[1..]);
      GapSkipped(gaps[0], w + rest);
      FirstToken(w, rest);
      WordsRead(items[1..], gaps[1..]);
      assert gaps[0] + w + rest == gaps[0] + (w + rest);
    }
  }

  lemma {:induction false} WordsTaken(items: seq<Item>)
    requires AllWordlike(items)
    ensures NamesOf(Words(items)) == Wanted(items) && DirsOf(Words(items)) == Searched(items)
  {
    if items != [] {
      WordTaken(items[0]);
      WordsTaken(items[1..]);
      assert Words(items)[1..] == Words(items[1..]);
    }
  }

  /** What the passes read from a string is what was written into it: the libraries and files in
      order, a library by its full name, and the search directories in order. */
  lemma ItemsRead(items: seq<Item>, gaps: seq<string>)
    requires |gaps| == |items| + 1 && Apart(gaps) && AllWordlike(items)
    ensures Names(Written(items, gaps)) == Wanted(items)
    ensures DirsOf(Tokens(Written(items, gaps), 0)) == Searched(items)
  {
    WordsRead(items, gaps);
    WordsTaken(items);
  }

  // ---------------------------------------------------------------- every string is so written

  function ItemOf(token: string): Item
  {
    if |token| >= 2 && token[0] == '-' && token[1] == 'L' then LinkDir(token[2..])
    else if |token| >= 2 && token[0] == '-' && token[1] == 'R' then RunDir(token[2..])
    else if |token| >= 2 && token[0] == '-' && token[1] == 'l' then Library(token[2..])
    else File(token)
  }

  lemma TokenIsItem(token: string)
    requires IsToken(token)
    ensures Wordlike(ItemOf(token)) && Spelled(ItemOf(token)) == token
  {
    SolidIsToken(token);
    if |token| >= 2 {
      assert token == [token[0], token[1]] + token[2..];
      forall c | c in token[2..] ensures c in token { }
    }
  }

  /** The white space in front of the text, and what comes behind it. */
  lemma {:induction false} LeadingGap(text: string) returns (gap: string, rest: string)
    ensures text == gap + rest && White(gap) && (rest == "" || !IsSpace(rest[0]))
  {
    if text == "" || !IsSpace(text[0]) {
      gap, rest := "", text;
    } else {
      gap, rest := LeadingGap(text[1..]);
      SpacesAre(text[0]);
      gap := [text[0]] + gap;
    }
  }

  /** Every text is a list of items with white space around them. */
  lemma {:induction false} EveryText(text: string) returns (items: seq<Item>, gaps: seq<string>)
    ensures |gaps| == |items| + 1 && Apart(gaps) && AllWordlike(items) && text == Written(items, gaps)
    ensures text == "" ==> items == []
    ensures gaps[0] == "" ==> text == "" || !IsSpace(text[0])
    decreases |text|
  {
    hide White, Wordlike, IsToken, IsSpace, Spelled;
    var gap, rest := LeadingGap(text);
    if rest == "" {
      items, gaps := [], [gap];
    } else {
      var (token, tail) := FirstWord(rest);
      var items', gaps' := EveryText(tail);
      items, gaps := [ItemOf(token)] + items', [gap] + gaps';
      TokenIsItem(token);
      assert items[1..] == items' && gaps[1..] == gaps';
      assert gap + (token + tail) == gap + token + tail;
    }
  }

  /** The word a text begins with, and what comes behind it. */
  function FirstWord(text: string): (r: (string, string))
    requires text != "" && !IsSpace(text[0])
    ensures text == r.0 + r.1 && IsToken(r.0) && (r.1 == "" || IsSpace(r.1[0]))
  {
    var end := TokenEnd(text, 1);
    (text[..end], text[end..])
  }

  // ---------------------------------------------------------------- the search path

  lemma {:induction false} AddDirsAppends(path: Option<string>, ds: seq<string>, dirs: seq<string>)
    requires SearchPathLaws.Represents(path, ds) && forall d :: d in dirs ==> SearchPathLaws.IsDir(d)
    ensures SearchPathLaws.Represents(AddDirs(path, dirs), ds + dirs)
    decreases |dirs|
  {
    hide SearchPathLaws.Represents, SearchPathLaws.IsDir, SearchPath.AddSearchDir;
    if dirs == [] {
      assert ds + dirs == ds;
    } else {
      SearchPathLaws.AddAppends(ds, path, dirs[0]);
      AddDirsAppends(SearchPath.AddSearchDir(path, dirs[0]), ds + [dirs[0]], dirs[1..]);
      assert ds + dirs == (ds + [dirs[0]]) + dirs[1..];
    }
  }

  /** The directories of the string are appended to those of the search path, in order. */
  lemma DirsAppended(path: Option<string>, ds: seq<string>, items: seq<Item>, gaps: seq<string>)
    requires SearchPathLaws.Represents(path, ds)
    requires |gaps| == |items| + 1 && Apart(gaps) && AllWordlike(items)
    requires forall d :: d in Searched(items) ==> SearchPathLaws.IsDir(d)
    ensures SearchPathLaws.Represents(Extend(path, Written(items, gaps)), ds + Searched(items))
  {
    ItemsRead(items, gaps);
    AddDirsAppends(path, ds, Searched(items));
  }
}
