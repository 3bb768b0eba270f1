/** What list_dir prints and search_dir searches, told from the slots of the table: one line for each
    component, in the order of the slots that show it first, and which words occur in that text. */
module Listings {
  import opened Inodes
  import opened Directories

  // -------------------------------------------------------- shown components

  /** Behind `front`, one component c: up to the next separator or the end. */
  ghost predicate ComponentBehind(name: string, front: string, c: string) {
    && |front| + |c| <= |name| && name[..|front|] == front && name[|front|..|front| + |c|] == c
    && '/' !in c && (|name| == |front| + |c| || name[|front| + |c|] == '/')
  }

  lemma {:induction false} UpToSlashIff(s: string, c: string)
    ensures UpToSlash(s) == c <==> c <= s && '/' !in c && (|c| == |s| || s[|c|] == '/')
  {
    if s != "" && s[0] != '/' {
      var u := UpToSlash(s[1..]);
      UpToSlashIff(s[1..], u);
      assert UpToSlash(s) == [s[0]] + u;
      if c != "" && (c <= s) && '/' !in c && (|c| == |s| || s[|c|] == '/') {
        UpToSlashIff(s[1..], c[1..]);
        assert c == [s[0]] + c[1..];
      }
    } else if c != "" && (c <= s) {
      assert s[0] == c[0] && c[0] in c;
    }
  }

  /** list_dir shows c of a name exactly when c follows the raw directory path and one character more,
      whatever that character is; under the root it follows the "/" itself. */
  lemma ShownIff(name: string, dir: string, c: string)
    requires c != ""
    ensures dir == "/" ==> (Shown(name, dir) == c <==> ComponentBehind(name, "/", c))
    ensures dir != "/" ==>
      (Shown(name, dir) == c <==>
       |name| > |dir| && ComponentBehind(name, dir + [name[|dir|]], c))
  {
    hide UpToSlash;
    if dir == "/" {
      Behind(name, "/", c);
    } else if |name| > |dir| {
      PrefixAndOne(name, dir);
      Behind(name, dir + [name[|dir|]], c);
    }
  }

  lemma Behind(name: string, front: string, c: string)
    ensures ComponentBehind(name, front, c) <==> front <= name && UpToSlash(name[|front|..]) == c
  {
    hide UpToSlash;
    if front <= name {
      UpToSlashIff(name[|front|..], c);
      assert c <= name[|front|..] <==> |front| + |c| <= |name| && name[|front|..|front| + |c|] == c;
    }
  }

  lemma PrefixAndOne(name: string, dir: string)
    requires |name| > |dir|
    ensures dir + [name[|dir|]] <= name <==> dir <= name
  {
    assert name[..|dir| + 1] == name[..|dir|] + [name[|dir|]];
    assert (dir + [name[|dir|]])[..|dir|] == dir;
    assert name[..|dir| + 1][..|dir|] == name[..|dir|];
  }

  /** An entry put directly into a directory is shown under its own name. */
  lemma JoinIsShown(pwd: string, name: string)
    requires PlainName(name) && pwd != ""
    ensures Shown(Join(pwd, name), pwd) == name
  {
    var path := Join(pwd, name);
    UpToSlashIff(name, name);
    if pwd == "/" {
      assert path[1..] == name;
    } else {
      assert path[|pwd| + 1..] == name;
    }
  }

  // ------------------------------------------------------------- the text

  /** Slot i is the first to show its component. */
  ghost predicate ShowsFirst(table: seq<Inode>, dir: string, i: int) {
    && 0 <= i < |table| && Shown(table[i].name, dir) != ""
    && forall h :: 0 <= h < i ==> Shown(table[h].name, dir) != Shown(table[i].name, dir)
  }

  /** What is printed for a slot: the bare component for a file, a trailing "/" for a directory. */
  function LineOf(node: Inode, dir: string): string {
    Shown(node.name, dir) + if node.kind == FILE_KIND then "" else "/"
  }

  function LinesOf(table: seq<Inode>, dir: string, slots: seq<nat>): (lines: seq<string>)
    requires forall j :: 0 <= j < |slots| ==> slots[j] < |table|
    ensures |lines| == |slots|
    ensures forall j :: 0 <= j < |slots| ==> lines[j] == LineOf(table[slots[j]], dir)
  {
    seq(|slots|, (j: int) requires 0 <= j < |slots| && slots[j] < |table| => LineOf(table[slots[j]], dir))
  }

  /** Every line with its newline. */
  function Text(lines: seq<string>): string {
    if lines == [] then "" else Text(lines[..|lines| - 1]) + (lines[|lines| - 1] + "\n")
  }

  /** The first slots, in order: all of them below k and no other. */
  ghost predicate AreFirsts(table: seq<Inode>, dir: string, k: nat, slots: seq<nat>) {
    && (forall j :: 0 <= j < |slots| ==> slots[j] < k && ShowsFirst(table, dir, slots[j]))
    && (forall i, j :: 0 <= i < j < |slots| ==> slots[i] < slots[j])
    && (forall i :: 0 <= i < k && ShowsFirst(table, dir, i) ==> i in slots)
  }

  /** The listing is these slots' lines. */
  ghost predicate Prints(table: seq<Inode>, dir: string, slots: seq<nat>, l: Listing)
    requires forall j :: 0 <= j < |slots| ==> slots[j] < |table|
  {
    && |l.names| == |slots|
    && (forall j :: 0 <= j < |slots| ==> l.names[j] == Shown(table[slots[j]].name, dir))
    && l.text == Text(LinesOf(table, dir, slots))
  }

  lemma {:induction false} ListingPrints(table: seq<Inode>, dir: string, k: nat) returns (slots: seq<nat>)
    requires k <= |table|
    ensures forall j :: 0 <= j < |slots| ==> slots[j] < |table|
    ensures AreFirsts(table, dir, k, slots) && Prints(table, dir, slots, ListDir(table, dir, k))
  {
    hide Shown, AreFirsts, Prints, Text;
    slots := [];
    if k == 0 {
      PrintsNothing(table, dir);
    } else {
      slots := ListingPrints(table, dir, k - 1);
      var l := ListDir(table, dir, k - 1);
      var c := Shown(table[k - 1].name, dir);
      NamesAreShown(table, dir, k - 1, slots, l);
      if c == "" || c in l.names {
        FirstsStay(table, dir, k - 1, slots);
      } else {
        FirstsGrow(table, dir, k - 1, slots);
        PrintsMore(table, dir, k - 1, slots, l);
        slots := slots + [k - 1];
      }
    }
  }

  lemma PrintsNothing(table: seq<Inode>, dir: string)
    ensures AreFirsts(table, dir, 0, []) && Prints(table, dir, [], Listing([], ""))
  {}

  /** A component is among the names exactly when an earlier slot shows it. */
  lemma NamesAreShown(table: seq<Inode>, dir: string, k: nat, slots: seq<nat>, l: Listing)
    requires k <= |table| && AreFirsts(table, dir, k, slots) && Prints(table, dir, slots, l)
    ensures forall c :: c != "" ==> (c in l.names <==> exists i :: 0 <= i < k && Shown(table[i].name, dir) == c)
  {
    hide Shown;
    forall i | 0 <= i < k && Shown(table[i].name, dir) != ""
      ensures Shown(table[i].name, dir) in l.names
    {
      var h := FirstShowing(table, dir, i);
      var j :| 0 <= j < |slots| && slots[j] == h;
      assert l.names[j] == Shown(table[i].name, dir);
    }
  }

  lemma {:induction false} FirstShowing(table: seq<Inode>, dir: string, i: nat) returns (h: nat)
    requires i < |table| && Shown(table[i].name, dir) != ""
    ensures h <= i && ShowsFirst(table, dir, h) && Shown(table[h].name, dir) == Shown(table[i].name, dir)
  {
    hide Shown;
    h := i;
    if g :| 0 <= g < i && Shown(table[g].name, dir) == Shown(table[i].name, dir) {
      h := FirstShowing(table, dir, g);
    }
  }

  lemma FirstsStay(table: seq<Inode>, dir: string, k: nat, slots: seq<nat>)
    requires k < |table| && AreFirsts(table, dir, k, slots)
    requires Shown(table[k].name, dir) == ""
      || exists i :: 0 <= i < k && Shown(table[i].name, dir) == Shown(table[k].name, dir)
    ensures AreFirsts(table, dir, k + 1, slots)
  {
    hide Shown;
  }

  lemma FirstsGrow(table: seq<Inode>, dir: string, k: nat, slots: seq<nat>)
    requires k < |table| && AreFirsts(table, dir, k, slots) && Shown(table[k].name, dir) != ""
    requires forall i :: 0 <= i < k ==> Shown(table[i].name, dir) != Shown(table[k].name, dir)
    ensures AreFirsts(table, dir, k + 1, slots + [k])
  {
    hide Shown;
    var more := slots + [k];
    assert more[|slots|] == k;
    assert forall x :: x in slots ==> x in more;
  }

  lemma PrintsMore(table: seq<Inode>, dir: string, k: nat, slots: seq<nat>, l: Listing)
    requires k < |table| && (forall j :: 0 <= j < |slots| ==> slots[j] < |table|) && Prints(table, dir, slots, l)
    ensures var c, ending := Shown(table[k].name, dir), if table[k].kind == FILE_KIND then "\n" else "/\n";
      Prints(table, dir, slots + [k], Listing(l.names + [c], l.text + c + ending))
  {
    hide Shown, Text;
    var lines, more := LinesOf(table, dir, slots), LinesOf(table, dir, slots + [k]);
    assert more[..|slots|] == lines;
    TextOfMore(more);
    LineAndNewline(l.text, table[k], dir);
  }

  lemma LineAndNewline(text: string, node: Inode, dir: string)
    ensures text + (LineOf(node, dir) + "\n") ==
      text + Shown(node.name, dir) + if node.kind == FILE_KIND then "\n" else "/\n"
  {
    hide Shown;
    var c := Shown(node.name, dir);
    assert "/" + "\n" == "/\n" && "" + "\n" == "\n";
    assert (c + "/") + "\n" == c + "/\n" && c + "" == c;
    assert text + (c + "/\n") == text + c + "/\n";
    assert text + (c + "\n") == text + c + "\n";
  }

  // ------------------------------------------------------------- its lines

  /** The first newline of a text, |text| if there is none. */
  function NewlineIn(text: string): (e: nat)
    ensures e <= |text| && '\n' !in text[..e] && (e < |text| ==> text[e] == '\n')
  {
    if text == "" || text[0] == '\n' then 0
    else
      var e := NewlineIn(text[1..]);
      assert text[..e + 1] == [text[0]] + text[1..][..e];
      e + 1
  }

  /** Splitting at newlines; what follows the last one counts only if there is something. */
  function SplitLines(text: string): seq<string>
    decreases |text|
  {
    if text == "" then []
    else
      var e := NewlineIn(text);
      [text[..e]] + SplitLines(if e < |text| then text[e + 1..] else "")
  }

  lemma NoneBefore(text: string, e: nat, c: char)
    requires e <= |text| && c !in text[..e]
    ensures forall j :: 0 <= j < e ==> text[j] != c
  {
    forall j | 0 <= j < e
      ensures text[j] != c
    {
      assert text[..e][j] == text[j];
    }
  }

  lemma NewlineAt(text: string, e: nat)
    requires e < |text| && text[e] == '\n' && '\n' !in text[..e]
    ensures NewlineIn(text) == e
  {
    hide NewlineIn;
    NoneBefore(text, e, '\n');
    NoneBefore(text, NewlineIn(text), '\n');
  }

  lemma SplitHead(text: string, e: nat)
    requires e < |text| && text[e] == '\n' && '\n' !in text[..e]
    ensures SplitLines(text) == [text[..e]] + SplitLines(text[e + 1..])
  {
    hide NewlineIn;
    NewlineAt(text, e);
  }

  lemma {:induction false} SplitOneMore(text: string, line: string)
    requires '\n' !in line && (text == "" || text[|text| - 1] == '\n')
    ensures SplitLines(text + line + "\n") == SplitLines(text) + [line]
    decreases |text|
  {
    hide NewlineIn, SplitLines;
    if text == "" {
      SplitOnly(line);
      assert text + line + "\n" == line + "\n";
    } else {
      EndsInNewline(text);
      var e := NewlineIn(text);
      var rest := text[e + 1..];
      SplitHead(text, e);
      HeadOfSum(text, line + "\n", e);
      SplitHead(text + (line + "\n"), e);
      assert text + line + "\n" == text + (line + "\n");
      assert rest != "" ==> rest[|rest| - 1] == text[|text| - 1];
      SplitOneMore(rest, line);
      assert rest + line + "\n" == rest + (line + "\n");
      assert [text[..e]] + (SplitLines(rest) + [line]) == ([text[..e]] + SplitLines(rest)) + [line];
    }
  }

  lemma SplitOnly(line: string)
    requires '\n' !in line
    ensures SplitLines("") == [] && SplitLines(line + "\n") == [line]
  {
    var all := line + "\n";
    assert all[..|line|] == line && all[|line| + 1..] == "";
    SplitHead(all, |line|);
  }

  lemma HeadOfSum(text: string, more: string, e: nat)
    requires e < |text|
    ensures (text + more)[..e] == text[..e] && (text + more)[e] == text[e]
    ensures (text + more)[e + 1..] == text[e + 1..] + more
  {}

  lemma EndsInNewline(text: string)
    requires text != "" && text[|text| - 1] == '\n'
    ensures NewlineIn(text) < |text|
  {
    hide NewlineIn;
    NoneBefore(text, NewlineIn(text), '\n');
  }

  lemma TextEnds(lines: seq<string>)
    ensures Text(lines) == "" || Text(lines)[|Text(lines)| - 1] == '\n'
  {}

  lemma {:induction false} TextSplits(lines: seq<string>)
    requires forall j :: 0 <= j < |lines| ==> '\n' !in lines[j]
    ensures SplitLines(Text(lines)) == lines
  {
    hide SplitLines, Text;
    if lines == [] {
      NoText();
    } else {
      var front := lines[..|lines| - 1];
      TextSplits(front);
      TextSplitsMore(front, lines[|lines| - 1]);
      assert lines == front + [lines[|lines| - 1]];
    }
  }

  lemma NoText()
    ensures SplitLines(Text([])) == []
  {}

  lemma TextSplitsMore(front: seq<string>, last: string)
    requires SplitLines(Text(front)) == front && '\n' !in last
    ensures SplitLines(Text(front + [last])) == front + [last]
  {
    hide SplitLines, Text;
    TextEnds(front);
    SplitOneMore(Text(front), last);
    TextOfMore(front + [last]);
    assert (front + [last])[..|front|] == front;
    assert Text(front) + last + "\n" == Text(front) + (last + "\n");
  }

  /** ls, line by line: splitting the text at newlines gives one line for each component shown, in the
      order of the slots that show it first, bare for a file there and with a "/" for a directory. */
  lemma ListingLines(table: seq<Inode>, dir: string) returns (slots: seq<nat>)
    requires forall i :: 0 <= i < |table| ==> '\n' !in table[i].name
    ensures forall j :: 0 <= j < |slots| ==> slots[j] < |table| && ShowsFirst(table, dir, slots[j])
    ensures forall i, j :: 0 <= i < j < |slots| ==> slots[i] < slots[j]
    ensures forall i :: ShowsFirst(table, dir, i) ==> i in slots
    ensures SplitLines(ListDir(table, dir, |table|).text) == LinesOf(table, dir, slots)
  {
    hide SplitLines, Text, Shown;
    slots := ListingPrints(table, dir, |table|);
    var lines := LinesOf(table, dir, slots);
    forall j | 0 <= j < |lines|
      ensures '\n' !in lines[j]
    {
      ShownWithin(table[slots[j]].name, dir);
    }
    TextSplits(lines);
  }

  lemma ShownWithin(name: string, dir: string)
    ensures forall x :: x in Shown(name, dir) ==> x in name
  {}

  // ----------------------------------------------------------- words in it

  /** Some slot shows a component that contains the word. */
  ghost predicate ShownWord(table: seq<Inode>, dir: string, word: string) {
    exists i :: 0 <= i < |table| && Occurs(Shown(table[i].name, dir), word)
  }

  /** `Occurs` is being a factor. */
  lemma OccursIff(text: string, word: string)
    ensures Occurs(text, word) <==> exists a, b :: text == a + word + b
  {
    if Occurs(text, word) {
      var k :| 0 <= k <= |text| && word <= text[k..];
      assert text == text[..k] + word + text[k + |word|..];
    }
    if a, b :| text == a + word + b {
      assert text[|a|..] == word + b;
    }
  }

  lemma OccursAt(text: string, word: string, k: nat)
    requires k + |word| <= |text| && text[k..k + |word|] == word
    ensures Occurs(text, word)
  {
    assert text[k..][..|word|] == word;
  }

  lemma OccursLeft(a: string, b: string, word: string)
    requires Occurs(a, word)
    ensures Occurs(a + b, word)
  {
    var k :| 0 <= k <= |a| && word <= a[k..];
    assert (a + b)[k..] == a[k..] + b;
  }

  lemma OccursRight(a: string, b: string, word: string)
    requires Occurs(b, word)
    ensures Occurs(a + b, word)
  {
    var k :| 0 <= k <= |b| && word <= b[k..];
    assert (a + b)[|a| + k..] == b[k..];
  }

  /** A word without the separator does not lie across one. */
  lemma NotAt(t: string, word: string, k: nat, i: nat, sep: char)
    requires k <= i < k + |word| && k <= |t| && word <= t[k..] && sep !in word
    ensures i < |t| && t[i] != sep
  {
    assert word[i - k] == t[k..][i - k] == t[i];
  }

  lemma OccursEither(a: string, b: string, word: string, sep: char)
    requires word != "" && sep !in word && (a == "" || a[|a| - 1] == sep) && Occurs(a + b, word)
    ensures Occurs(a, word) || Occurs(b, word)
  {
    var t := a + b;
    var k :| 0 <= k <= |t| && word <= t[k..];
    if k >= |a| {
      assert t[k..] == b[k - |a|..];
    } else if k + |word| <= |a| {
      assert t[k..] == a[k..] + b;
      assert a[k..][..|word|] == t[k..][..|word|] == word;
    } else {
      NotAt(t, word, k, |a| - 1, sep);
      assert false;
    }
  }

  /** A word without the separator does not reach across it. */
  lemma OccursJoin(a: string, b: string, word: string, sep: char)
    requires word != "" && sep !in word && (a == "" || a[|a| - 1] == sep)
    ensures Occurs(a + b, word) <==> Occurs(a, word) || Occurs(b, word)
  {
    hide Occurs;
    if Occurs(a, word) {
      OccursLeft(a, b, word);
    }
    if Occurs(b, word) {
      OccursRight(a, b, word);
    }
    if Occurs(a + b, word) {
      OccursEither(a, b, word, sep);
    }
  }

  lemma OccursBefore(a: string, word: string, sep: char)
    requires word != "" && sep !in word
    ensures Occurs(a + [sep], word) <==> Occurs(a, word)
  {
    var t := a + [sep];
    if k :| 0 <= k <= |t| && word <= t[k..] {
      if k + |word| <= |a| {
        assert t[k..k + |word|] == word;
        assert a[k..k + |word|] == word;
        OccursAt(a, word, k);
      } else if k <= |a| {
        NotAt(t, word, k, |a|, sep);
        assert false;
      }
    }
    if k :| 0 <= k <= |a| && word <= a[k..] {
      assert t[k..k + |word|] == a[k..k + |word|] == word;
      OccursAt(t, word, k);
    }
  }

  lemma {:induction false} OccursInText(lines: seq<string>, word: string)
    requires word != "" && '\n' !in word
    ensures Occurs(Text(lines), word) <==> exists l :: l in lines && Occurs(l, word)
  {
    hide Occurs, Text;
    if lines == [] {
      NothingOccurs(word);
    } else {
      var front, last := lines[..|lines| - 1], lines[|lines| - 1];
      OccursInText(front, word);
      TextEnds(front);
      OccursJoin(Text(front), last + "\n", word, '\n');
      OccursBefore(last, word, '\n');
      TextOfMore(lines);
      assert lines == front + [last];
      assert forall l :: l in lines <==> l in front || l == last;
    }
  }

  lemma TextOfMore(lines: seq<string>)
    requires lines != []
    ensures Text(lines) == Text(lines[..|lines| - 1]) + (lines[|lines| - 1] + "\n")
  {}

  lemma NothingOccurs(word: string)
    requires word != ""
    ensures Text([]) == "" && !Occurs("", word)
  {}

  lemma OccursInLine(node: Inode, dir: string, word: string)
    requires PlainName(word)
    ensures Occurs(LineOf(node, dir), word) <==> Occurs(Shown(node.name, dir), word)
  {
    hide Occurs, Shown;
    var c := Shown(node.name, dir);
    assert c + "" == c;
    OccursBefore(c, word, '/');
  }

  /** search_dir finds a name without separator exactly when the directory is in the table and some
      component shown in it contains the name: every entry blocks the names that are parts of its own. */
  lemma SearchDirIff(table: seq<Inode>, pwd: string, name: string)
    requires '/' !in name && '\n' !in name
    ensures SearchDir(table, pwd, name) <==>
      ShownWord(table, pwd, name)
      && exists i :: 0 <= i < |table| && table[i].name == pwd && table[i].kind == DIR_KIND
  {
    hide Shown, ListDir;
    if name == "" {
      forall s: string
        ensures Occurs(s, "")
      {
        assert "" <= s[0..];
      }
    } else {
      SearchPlainIff(table, pwd, name);
    }
  }

  lemma SearchPlainIff(table: seq<Inode>, pwd: string, name: string)
    requires PlainName(name) && '\n' !in name
    ensures SearchDir(table, pwd, name) <==>
      ShownWord(table, pwd, name)
      && exists i :: 0 <= i < |table| && table[i].name == pwd && table[i].kind == DIR_KIND
  {
    hide Occurs, Shown, Text;
    var slots := ListingPrints(table, pwd, |table|);
    var lines := LinesOf(table, pwd, slots);
    OccursInText(lines, name);
    forall j | 0 <= j < |slots|
      ensures Occurs(lines[j], name) <==> Occurs(Shown(table[slots[j]].name, pwd), name)
    {
      OccursInLine(table[slots[j]], pwd, name);
    }
    if i :| 0 <= i < |table| && Occurs(Shown(table[i].name, pwd), name) {
      NothingOccurs(name);
      var h := FirstShowing(table, pwd, i);
      var j :| 0 <= j < |slots| && slots[j] == h;
      assert lines[j] in lines && Occurs(lines[j], name);
    }
    if l :| l in lines && Occurs(l, name) {
      var j :| 0 <= j < |lines| && lines[j] == l;
      assert Occurs(Shown(table[slots[j]].name, pwd), name);
    }
  }
}
