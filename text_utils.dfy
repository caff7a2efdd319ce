/** utils.go: character-class predicates and string helpers. Go strings are
  * modelled as sequences of characters (runes). */
module TextUtils {
  import opened Outcomes
  import opened GoStrings
  import Slices

  /** InRange: inclusive at both ends. */
  predicate InRange(val: int, min: int, max: int)
  {
    val >= min && val <= max
  }

  predicate IsUpper(c: char)
  {
    InRange(c as int, 'A' as int, 'Z' as int)
  }

  predicate IsNumberic(c: char)
  {
    InRange(c as int, '0' as int, '9' as int)
  }

  predicate IsLower(c: char)
  {
    InRange(c as int, 'a' as int, 'z' as int)
  }

  predicate IsAlphabet(c: char)
  {
    IsLower(c) || IsUpper(c)
  }

  predicate IsAlphanum(c: char)
  {
    IsAlphabet(c) || IsNumberic(c)
  }

  /** Both bounds are in range, and nothing outside them is. */
  lemma InRangeInclusive(val: int, min: int, max: int)
    requires min <= max
    ensures InRange(min, min, max) && InRange(max, min, max)
    ensures val < min || val > max ==> !InRange(val, min, max)
  {
  }

  /** IsAlphanum holds exactly for the ASCII letters and digits: the 62
    * characters of these three tables. */
  lemma IsAlphanumExactly(c: char)
    ensures IsAlphanum(c) <==>
      c in "0123456789" || c in "ABCDEFGHIJKLMNOPQRSTUVWXYZ" || c in "abcdefghijklmnopqrstuvwxyz"
  {
    DigitTable(c);
    UpperTable(c);
    LowerTable(c);
  }

  lemma DigitTable(c: char)
    ensures c in "0123456789" <==> '0' <= c <= '9'
  {
    CharRange("0123456789", '0', c);
  }

  lemma UpperTable(c: char)
    ensures c in "ABCDEFGHIJKLMNOPQRSTUVWXYZ" <==> 'A' <= c <= 'Z'
  {
    CharRange("ABCDEFGHIJKLMNOPQRSTUVWXYZ", 'A', c);
  }

  lemma LowerTable(c: char)
    ensures c in "abcdefghijklmnopqrstuvwxyz" <==> 'a' <= c <= 'z'
  {
    CharRange("abcdefghijklmnopqrstuvwxyz", 'a', c);
  }

  /** A table of consecutive characters holds exactly its range. */
  lemma CharRange(table: string, first: char, c: char)
    requires forall k :: 0 <= k < |table| ==> table[k] as int == first as int + k
    ensures c in table <==> first as int <= c as int < first as int + |table|
  {
    if first as int <= c as int < first as int + |table| {
      assert table[c as int - first as int] == c;
    }
  }

  /** The characters getValidRef keeps: not the symbol, not a space, and
    * either an ASCII letter or digit or a code point above 0xff. */
  predicate KeptInRef(symbol: char, c: char)
  {
    c != symbol && c != ' ' && (IsAlphanum(c) || c as int > 0xff)
  }

  /** getValidRef: the characters of refname that are kept, in order. */
  method GetValidRef(refname: string, symbol: char) returns (r: string)
    ensures r == Slices.Filtered(refname, c => KeptInRef(symbol, c))
  {
    var word := [];
    for i := 0 to |refname|
      invariant word == Slices.Filtered(refname[..i], c => KeptInRef(symbol, c))
    {
      assert refname[..i + 1][..i] == refname[..i];
      var c := refname[i];
      if c != symbol && c != ' ' {
        if IsAlphanum(c) {
          word := word + [c];
        } else if c as int > 0xff {
          word := word + [c];
        }
      }
    }
    assert refname[..|refname|] == refname;
    r := word;
  }

  /** What getValidRef keeps: exactly the characters of refname that are
    * not the symbol nor a space and are alphanumeric or above 0xff. */
  lemma ValidRefMembers(refname: string, symbol: char)
    ensures forall c :: c in Slices.Filtered(refname, c => KeptInRef(symbol, c)) <==>
      c in refname && c != symbol && c != ' ' && (IsAlphanum(c) || c as int > 0xff)
  {
    Slices.FilteredMembers(refname, c => KeptInRef(symbol, c));
  }

  /** toComment: with an even number of symbols, val between the first two;
    * with an odd number, the first symbol before it. With no symbols the
    * even branch indexes past the end. */
  function ToComment(val: string, commentSymbol: seq<string>): (r: Outcome<string>)
    ensures |commentSymbol| == 0 <==> r.Panic?
    ensures |commentSymbol| > 0 && |commentSymbol| % 2 == 0 ==> r == Done(commentSymbol[0] + val + commentSymbol[1])
    ensures |commentSymbol| % 2 == 1 ==> r == Done(commentSymbol[0] + val)
  {
    if |commentSymbol| % 2 == 0 then
      if |commentSymbol| == 0 then Panic("index out of range")
      else Done(commentSymbol[0] + val + commentSymbol[1])
    else Done(commentSymbol[0] + val)
  }

  /** The syntax Template uses: the placeholder, or "{}" when it is empty. */
  function TemplateSyntax(placeholder: string): string
  {
    if placeholder != "" then placeholder else "{}"
  }

  /** The placeholder text Template looks for to substitute key k. */
  function TemplateKey(tempSyntax: string, k: string): string
  {
    if tempSyntax == "{}" then "{" + k + "}"
    else if tempSyntax == "[]" then "[" + k + "]"
    else if tempSyntax == "()" then "(" + k + ")"
    else if tempSyntax == ":" || tempSyntax == "@" || tempSyntax == "#" || tempSyntax == "$" then tempSyntax + k
    else if tempSyntax == "?" then tempSyntax
    else if |tempSyntax| % 2 == 1 then tempSyntax + k
    else
      var half := |tempSyntax| / 2;
      tempSyntax[..half] + k + tempSyntax[half..]
  }

  /** The named cases of Template's switch all agree with its default: a
    * syntax of odd length is a prefix, one of even length is cut in halves
    * around the key. Only "?" stands on its own. */
  lemma TemplateKeyUniform(tempSyntax: string, k: string)
    ensures tempSyntax != "?" && |tempSyntax| % 2 == 1 ==> TemplateKey(tempSyntax, k) == tempSyntax + k
    ensures |tempSyntax| % 2 == 0 ==>
      TemplateKey(tempSyntax, k) == tempSyntax[..|tempSyntax| / 2] + k + tempSyntax[|tempSyntax| / 2..]
    ensures TemplateKey("?", k) == "?"
  {
    if |tempSyntax| == 2 {
      var left, right := tempSyntax[..1], tempSyntax[1..];
      assert left == [tempSyntax[0]] && right == [tempSyntax[1]];
      if tempSyntax == "{}" {
        assert left == "{" && right == "}";
      } else if tempSyntax == "[]" {
        assert left == "[" && right == "]";
      } else if tempSyntax == "()" {
        assert left == "(" && right == ")";
      }
    }
  }

  /** The text after substituting the entries of `data` in order: each
    * entry replaces the first occurrence of its placeholder. */
  function Substituted(source: string, data: seq<(string, string)>, tempSyntax: string): string
  {
    if data == [] then source
    else
      var (k, valStr) := data[|data| - 1];
      ReplaceFirst(Substituted(source, data[..|data| - 1], tempSyntax), TemplateKey(tempSyntax, k), valStr)
  }

  /** Template: for each entry of the map, in the order the loop visits
    * them (`data`, values already rendered to text), replace the first
    * occurrence of its placeholder. */
  method Template(source: string, data: seq<(string, string)>, placeholder: string) returns (r: string)
    ensures r == Substituted(source, data, TemplateSyntax(placeholder))
  {
    var tempSyntax := "{}";
    if placeholder != "" {
      tempSyntax := placeholder;
    }
    var sourceCopy := source;
    for i := 0 to |data|
      invariant sourceCopy == Substituted(source, data[..i], tempSyntax)
    {
      assert data[..i + 1][..i] == data[..i];
      var (k, valStr) := data[i];
      var key := TemplateKey(tempSyntax, k);
      sourceCopy := ReplaceFirst(sourceCopy, key, valStr);
    }
    assert data[..|data|] == data;
    r := sourceCopy;
  }

  /** Two entries: the first entry's replacement, then the second's. */
  lemma SubstitutedPair(source: string, a: (string, string), b: (string, string), tempSyntax: string)
    ensures Substituted(source, [a, b], tempSyntax) ==
      ReplaceFirst(ReplaceFirst(source, TemplateKey(tempSyntax, a.0), a.1), TemplateKey(tempSyntax, b.0), b.1)
  {
    var t := tempSyntax;
    assert [a, b][..1] == [a];
    assert [a][..0] == [];
    assert Substituted(source, [a], t) == ReplaceFirst(source, TemplateKey(t, a.0), a.1);
    assert Substituted(source, [a, b], t) == ReplaceFirst(Substituted(source, [a], t), TemplateKey(t, b.0), b.1);
  }

  /** The first occurrence of a pattern is at k when it occurs there and,
    * at every earlier position, its j-th character is not matched. */
  lemma ReplaceAt(s: string, pattern: string, replacement: string, k: nat, j: nat)
    requires j < |pattern| && OccursAt(s, pattern, k)
    requires forall q :: j <= q < k + j && q < |s| ==> s[q] != pattern[j]
    ensures ReplaceFirst(s, pattern, replacement) == s[..k] + replacement + s[k + |pattern|..]
  {
    NoEarlierOccurrence(s, pattern, k, j);
    FirstOccurrenceIndex(s, pattern, k);
  }

  /** The pattern's j-th character missing at every earlier position rules
    * out an earlier occurrence. */
  lemma NoEarlierOccurrence(s: string, pattern: string, k: nat, j: nat)
    requires j < |pattern|
    requires forall q :: j <= q < k + j && q < |s| ==> s[q] != pattern[j]
    ensures forall p :: 0 <= p < k ==> !OccursAt(s, pattern, p)
  {
    forall p | 0 <= p < k
      ensures !OccursAt(s, pattern, p)
    {
      if p + |pattern| <= |s| {
        assert s[p..p + |pattern|][j] == s[p + j];
      }
    }
  }

  lemma FirstOccurrenceIndex(s: string, pattern: string, k: nat)
    requires OccursAt(s, pattern, k) && forall p :: 0 <= p < k ==> !OccursAt(s, pattern, p)
    ensures Index(s, pattern) == k
  {
  }

  /** One substitution on a concrete text: the pattern first occurs at k,
    * and at every earlier position its j-th character is missing. */
  lemma ReplaceOnce(s: string, pattern: string, replacement: string, k: nat, j: nat, r: string)
    requires j < |pattern| && OccursAt(s, pattern, k)
    requires forall q :: j <= q < k + j && q < |s| ==> s[q] != pattern[j]
    requires r == s[..k] + replacement + s[k + |pattern|..]
    ensures ReplaceFirst(s, pattern, replacement) == r
  {
    ReplaceAt(s, pattern, replacement, k, j);
  }

  lemma HelloFirst()
    ensures ReplaceFirst("{a} {b}", "{a}", "hello") == "hello {b}"
    ensures ReplaceFirst("hello {b}", "{b}", "world") == "hello world"
  {
    ReplaceOnce("{a} {b}", "{a}", "hello", 0, 0, "hello {b}");
    ReplaceOnce("hello {b}", "{b}", "world", 6, 1, "hello world");
  }

  lemma WorldFirst()
    ensures ReplaceFirst("{a} {b}", "{b}", "world") == "{a} world"
    ensures ReplaceFirst("{a} world", "{a}", "hello") == "hello world"
  {
    WorldIntoBraces();
    HelloIntoBraces();
  }

  lemma WorldIntoBraces()
    ensures ReplaceFirst("{a} {b}", "{b}", "world") == "{a} world"
  {
    ReplaceOnce("{a} {b}", "{b}", "world", 4, 1, "{a} world");
  }

  lemma HelloIntoBraces()
    ensures ReplaceFirst("{a} world", "{a}", "hello") == "hello world"
  {
    ReplaceOnce("{a} world", "{a}", "hello", 0, 0, "hello world");
  }

  lemma BraceKeys()
    ensures TemplateSyntax("") == "{}"
    ensures TemplateKey("{}", "a") == "{a}" && TemplateKey("{}", "b") == "{b}"
  {
  }

  /** The template test: "{a} {b}" gives "hello world", whichever key the
    * loop visits first. */
  lemma TemplateHelloWorld()
    ensures Substituted("{a} {b}", [("a", "hello"), ("b", "world")], TemplateSyntax("")) == "hello world"
    ensures Substituted("{a} {b}", [("b", "world"), ("a", "hello")], TemplateSyntax("")) == "hello world"
  {
    BraceKeys();
    SubstitutedPair("{a} {b}", ("a", "hello"), ("b", "world"), "{}");
    SubstitutedPair("{a} {b}", ("b", "world"), ("a", "hello"), "{}");
    HelloFirst();
    WorldFirst();
  }

  lemma QuestionSteps()
    ensures ReplaceFirst("? ?", "?", "1") == "1 ?" && ReplaceFirst("? ?", "?", "2") == "2 ?"
    ensures ReplaceFirst("1 ?", "?", "2") == "1 2" && ReplaceFirst("2 ?", "?", "1") == "2 1"
  {
    QuestionFirst();
    QuestionSecond();
  }

  lemma QuestionFirst()
    ensures ReplaceFirst("? ?", "?", "1") == "1 ?" && ReplaceFirst("? ?", "?", "2") == "2 ?"
  {
    ReplaceOnce("? ?", "?", "1", 0, 0, "1 ?");
    ReplaceOnce("? ?", "?", "2", 0, 0, "2 ?");
  }

  lemma QuestionSecond()
    ensures ReplaceFirst("1 ?", "?", "2") == "1 2" && ReplaceFirst("2 ?", "?", "1") == "2 1"
  {
    ReplaceOnce("1 ?", "?", "2", 2, 0, "1 2");
    ReplaceOnce("2 ?", "?", "1", 2, 0, "2 1");
  }

  /** With "?" every key has the same placeholder, so the result depends on
    * the order of the map: "? ?" gives "1 2" or "2 1". */
  lemma TemplateQuestionMarks()
    ensures Substituted("? ?", [("a", "1"), ("b", "2")], TemplateSyntax("?")) == "1 2"
    ensures Substituted("? ?", [("b", "2"), ("a", "1")], TemplateSyntax("?")) == "2 1"
  {
    assert TemplateSyntax("?") == "?";
    assert TemplateKey("?", "a") == "?" && TemplateKey("?", "b") == "?";
    SubstitutedPair("? ?", ("a", "1"), ("b", "2"), "?");
    SubstitutedPair("? ?", ("b", "2"), ("a", "1"), "?");
    QuestionSteps();
  }

  /** string(c) == symbol: the one-character text c is the symbol. */
  predicate IsSymbol(c: char, symbol: string)
  {
    |symbol| == 1 && symbol[0] == c
  }

  lemma IsSymbolEquality(c: char, symbol: string)
    ensures IsSymbol(c, symbol) <==> [c] == symbol
  {
    if [c] == symbol {
      assert symbol[0] == c;
    }
  }

  /** FindVariableNames as written: `maxLength & 0 == 0` always holds, so
    * the delimiter is always cut in halves, and the branch that would use
    * the whole delimiter as the opening symbol is never taken. */
  function DelimiterSymbols(delimiter: string): (string, string)
  {
    var half := |delimiter| / 2;
    (delimiter[..half], delimiter[half..])
  }

  /** A name character: neither a space nor the closing symbol. */
  predicate InName(c: char, right: string)
  {
    c != ' ' && !(right != "" && IsSymbol(c, right))
  }

  /** Where a name starting at n ends: at the closing symbol, at a space,
    * or at the end of the text. */
  function NameEnd(text: string, right: string, n: nat): (e: nat)
    requires n <= |text|
    ensures n <= e <= |text|
    ensures forall p :: n <= p < e ==> InName(text[p], right)
    ensures e < |text| ==> !InName(text[e], right)
    decreases |text| - n
  {
    if n == |text| then n
    else if right != "" && IsSymbol(text[n], right) then n
    else if text[n] == ' ' then n
    else NameEnd(text, right, n + 1)
  }

  /** The end of a name is the first position that is not a name
    * character. */
  lemma {:induction false} NameEndAt(text: string, right: string, n: nat, e: nat)
    requires n <= e <= |text|
    requires forall p :: n <= p < e ==> InName(text[p], right)
    requires e < |text| ==> !InName(text[e], right)
    ensures NameEnd(text, right, n) == e
    decreases e - n
  {
    if n < e {
      NameEndAt(text, right, n + 1, e);
    }
  }

  /** The names found from position idx on: after each opening symbol, the
    * text up to the name's end; the scan resumes after that end. */
  function NamesFrom(text: string, left: string, right: string, idx: nat): seq<string>
    decreases |text| + 1 - idx
  {
    if idx >= |text| then []
    else if IsSymbol(text[idx], left) then
      var n := NameEnd(text, right, idx + 1);
      [text[idx + 1..n]] + NamesFrom(text, left, right, n + 1)
    else NamesFrom(text, left, right, idx + 1)
  }

  /** Positions holding no opening symbol are passed over. */
  lemma {:induction false} NamesSkip(text: string, left: string, right: string, idx: nat, j: nat)
    requires idx <= j <= |text|
    requires forall p :: idx <= p < j ==> !IsSymbol(text[p], left)
    ensures NamesFrom(text, left, right, idx) == NamesFrom(text, left, right, j)
    decreases j - idx
  {
    if idx < j {
      NamesSkip(text, left, right, idx + 1, j);
    }
  }

  /** The inner loop of FindVariableNames: collect name characters from
    * `start` until the closing symbol, a space or the end. */
  method ReadName(text: string, right: string, start: nat) returns (nameCache: string, n: nat)
    requires start <= |text|
    ensures n == NameEnd(text, right, start) && nameCache == text[start..n]
  {
    nameCache := "";
    n := start;
    while n < |text|
      invariant start <= n <= |text|
      invariant nameCache == text[start..n]
      invariant NameEnd(text, right, start) == NameEnd(text, right, n)
      decreases |text| - n
    {
      if right != "" && IsSymbol(text[n], right) {
        break;
      } else if text[n] == ' ' {
        break;
      }
      nameCache := nameCache + [text[n]];
      n := n + 1;
    }
  }

  /** The scanning loop of FindVariableNames for given opening and closing
    * symbols; `idx = n` then `idx++` resumes after the name's end. */
  method ScanNames(text: string, left: string, right: string) returns (variables: seq<string>)
    ensures variables == NamesFrom(text, left, right, 0)
  {
    variables := [];
    var maxLength := |text|;
    var idx := 0;
    while idx < maxLength
      invariant 0 <= idx <= maxLength + 1
      invariant variables + NamesFrom(text, left, right, idx) == NamesFrom(text, left, right, 0)
      decreases maxLength + 1 - idx
    {
      if IsSymbol(text[idx], left) {
        var nameCache, n := ReadName(text, right, idx + 1);
        variables := variables + [nameCache];
        idx := n;
      }
      idx := idx + 1;
    }
  }

  /** FindVariableNames: the names between the two halves of the
    * delimiter. */
  method FindVariableNames(text: string, delimiter: string) returns (variables: seq<string>)
    ensures var (left, right) := DelimiterSymbols(delimiter); variables == NamesFrom(text, left, right, 0)
  {
    var (left, right) := DelimiterSymbols(delimiter);
    variables := ScanNames(text, left, right);
  }

  /** Every name stops before a space and before the closing symbol. */
  lemma {:induction false} NamesAvoidEnds(text: string, left: string, right: string, idx: nat)
    ensures forall name :: name in NamesFrom(text, left, right, idx) ==>
      forall k :: 0 <= k < |name| ==> InName(name[k], right)
    decreases |text| + 1 - idx
  {
    if idx < |text| {
      if IsSymbol(text[idx], left) {
        var n := NameEnd(text, right, idx + 1);
        NamesAvoidEnds(text, left, right, n + 1);
        var name := text[idx + 1..n];
        assert forall k :: 0 <= k < |name| ==> name[k] == text[idx + 1 + k];
      } else {
        NamesAvoidEnds(text, left, right, idx + 1);
      }
    }
  }

  /** The test: "{name} with {code}" with "{}" gives ["name", "code"]. */
  lemma NamesInBraces()
    ensures DelimiterSymbols("{}") == ("{", "}")
    ensures NamesFrom("{name} with {code}", "{", "}", 0) == ["name", "code"]
  {
    assert "{}"[..1] == "{" && "{}"[1..] == "}";
    var t := "{name} with {code}";
    NamesSkip(t, "{", "}", 6, 12);
    SecondBracedName(t);
    FirstBracedName(t);
  }

  lemma FirstBracedName(t: string)
    requires t == "{name} with {code}"
    ensures NamesFrom(t, "{", "}", 0) == ["name"] + NamesFrom(t, "{", "}", 6)
  {
    NameEndAt(t, "}", 1, 5);
    assert t[1..5] == "name";
  }

  lemma SecondBracedName(t: string)
    requires t == "{name} with {code}"
    ensures NamesFrom(t, "{", "}", 12) == ["code"]
  {
    assert |t| == 18;
    NameEndAt(t, "}", 13, 17);
    assert t[13..17] == "code";
    assert NamesFrom(t, "{", "}", 12) == ["code"] + NamesFrom(t, "{", "}", 18);
  }

  /** As written, a one-character delimiter such as "@" gives an empty
    * opening symbol, which no character matches: "hi @name" yields no
    * names at all. */
  lemma {:induction false} AtDelimiterFindsNothing(text: string, idx: nat)
    ensures DelimiterSymbols("@") == ("", "@")
    ensures NamesFrom(text, "", "@", idx) == []
    decreases |text| + 1 - idx
  {
    if idx < |text| {
      AtDelimiterFindsNothing(text, idx + 1);
    }
  }

  /** The evidently intended split: an even-length delimiter is cut in
    * halves; an odd-length one is the opening symbol, and names end at a
    * space. */
  function IntendedDelimiterSymbols(delimiter: string): (r: (string, string))
    ensures |delimiter| % 2 == 0 ==> r == DelimiterSymbols(delimiter)
    ensures |delimiter| % 2 == 1 ==> r == (delimiter, "")
  {
    if |delimiter| % 2 == 0 then DelimiterSymbols(delimiter) else (delimiter, "")
  }

  /** FindVariableNames with the intended split. */
  method FindVariableNamesIntended(text: string, delimiter: string) returns (variables: seq<string>)
    ensures var (left, right) := IntendedDelimiterSymbols(delimiter); variables == NamesFrom(text, left, right, 0)
  {
    var (left, right) := IntendedDelimiterSymbols(delimiter);
    variables := ScanNames(text, left, right);
  }

  /** With the intended split, "hi @name" with "@" gives ["name"]. */
  lemma AtDelimiterIntended()
    ensures IntendedDelimiterSymbols("@") == ("@", "")
    ensures NamesFrom("hi @name", "@", "", 0) == ["name"]
  {
    var t := "hi @name";
    NamesSkip(t, "@", "", 0, 3);
    NameEndAt(t, "", 4, 8);
    assert t[4..8] == "name";
    assert NamesFrom(t, "@", "", 3) == ["name"] + NamesFrom(t, "@", "", 9);
  }

  /** One path segment as pathParse keeps it: a leading ":" is dropped (and
    * a trailing one too), surrounding "{" "}" are dropped. The segment ":"
    * alone is both, and key[1:0] is out of range: Go panics. */
  function PathName(key: string): (r: Outcome<string>)
    requires key != ""
    ensures r.Panic? <==> key == ":"
    ensures r.Done? && key[0] != ':' && key[0] != '{' ==> r.value == key
    ensures r.Done? && key[0] == ':' && key[|key| - 1] != ':' ==> r.value == key[1..]
    ensures r.Done? && key[0] == ':' && key[|key| - 1] == ':' ==> r.value == key[1..|key| - 1]
  {
    if HasPrefix(key, ":") then
      if HasSuffix(key, ":") then
        if |key| < 2 then Panic("slice bounds out of range") else Done(key[1..|key| - 1])
      else Done(key[1..])
    else if HasPrefix(key, "{") && HasSuffix(key, "}") then Done(key[1..|key| - 1])
    else Done(key)
  }

  /** The names pathParse collects from the pieces of a path, skipping empty
    * pieces, or the panic of the first piece that is ":". */
  function PathNames(pieces: seq<string>): Outcome<seq<string>>
  {
    if pieces == [] then Done([])
    else
      var init := PathNames(pieces[..|pieces| - 1]);
      var key := pieces[|pieces| - 1];
      if init.Panic? || key == "" then init
      else
        var name := PathName(key);
        if name.Panic? then Panic(name.message) else Done(init.value + [name.value])
  }

  /** pathParse: split on "/" and collect the name of every non-empty
    * piece. */
  method PathParse(target: string) returns (obj: Outcome<seq<string>>)
    ensures obj == PathNames(Split(target, "/"))
  {
    var pathSlice := Split(target, "/");
    var names: seq<string> := [];
    for i := 0 to |pathSlice|
      invariant PathNames(pathSlice[..i]) == Done(names)
    {
      assert pathSlice[..i + 1][..i] == pathSlice[..i];
      var key := pathSlice[i];
      if key != "" {
        var name := PathName(key);
        if name.Panic? {
          PathNamesPanic(pathSlice, i + 1);
          return Panic(name.message);
        }
        names := names + [name.value];
      }
    }
    assert pathSlice[..|pathSlice|] == pathSlice;
    obj := Done(names);
  }

  /** A panic in a prefix of the pieces is the panic of the whole. */
  lemma {:induction false} PathNamesPanic(pieces: seq<string>, n: nat)
    requires n <= |pieces| && PathNames(pieces[..n]).Panic?
    ensures PathNames(pieces) == PathNames(pieces[..n])
    decreases |pieces| - n
  {
    if n < |pieces| {
      assert pieces[..n + 1][..n] == pieces[..n];
      PathNamesPanic(pieces, n + 1);
    } else {
      assert pieces[..n] == pieces;
    }
  }

  /** The names are the non-empty pieces with their markers stripped: one
    * name per non-empty piece, none longer than its piece. */
  lemma {:induction false} PathNamesCount(pieces: seq<string>)
    requires PathNames(pieces).Done?
    ensures |PathNames(pieces).value| == |Slices.Filtered(pieces, (p: string) => p != "")|
    ensures forall k :: 0 <= k < |pieces| ==> pieces[k] != ":"
    decreases |pieces|
  {
    if pieces != [] {
      PathNamesCount(pieces[..|pieces| - 1]);
      var last := pieces[|pieces| - 1];
      forall k | 0 <= k < |pieces| ensures pieces[k] != ":" {
        if k < |pieces| - 1 {
          assert pieces[k] == pieces[..|pieces| - 1][k];
        }
      }
    }
  }

  /** A piece that starts with neither ":" nor "{" is kept as it is. */
  lemma PlainName(key: string)
    requires key != "" && key[0] != ':' && key[0] != '{'
    ensures PathName(key) == Done(key)
  {
    assert key[..1] == [key[0]];
  }

  /** A route of plain names reads back as those names. */
  lemma {:induction false} PlainPathNames(pieces: seq<string>)
    requires forall k :: 0 <= k < |pieces| ==> pieces[k] != "" && pieces[k][0] != ':' && pieces[k][0] != '{'
    ensures PathNames(pieces) == Done(pieces)
    decreases |pieces|
  {
    if pieces != [] {
      var init := pieces[..|pieces| - 1];
      PlainPathNames(init);
      PlainName(pieces[|pieces| - 1]);
      assert pieces == init + [pieces[|pieces| - 1]];
    }
  }

  /** Splitting at a first occurrence of a one-character separator. */
  lemma SplitCharFirst(s: string, c: char, k: nat)
    requires k < |s| && s[k] == c && forall p :: 0 <= p < k ==> s[p] != c
    ensures SplitOn(s, [c]) == [s[..k]] + SplitOn(s[k + 1..], [c])
  {
    IndexOfChar(s, c);
    IndexCharAt(s, c, k);
  }

  /** A path "/a/b" with no "/" inside a or b splits into "", a and b. */
  lemma TwoLevelPieces(path: string, a: string, b: string)
    requires path == "/" + a + "/" + b && '/' !in a && '/' !in b
    ensures Split(path, "/") == ["", a, b]
  {
    LeadingSlash(path, path[1..]);
    MiddleSlash(path[1..], a, b);
  }

  lemma LeadingSlash(path: string, rest: string)
    requires |path| > 0 && path[0] == '/' && rest == path[1..]
    ensures SplitOn(path, ['/']) == [""] + SplitOn(rest, ['/'])
  {
    SplitCharFirst(path, '/', 0);
    assert path[..0] == "";
  }

  lemma MiddleSlash(rest: string, a: string, b: string)
    requires rest == a + "/" + b && '/' !in a && '/' !in b
    ensures SplitOn(rest, ['/']) == [a, b]
  {
    OneSlash(rest, a, b);
    SplitCharOnce(rest, '/', |a|);
    assert rest[..|a|] == a && rest[|a| + 1..] == b;
  }

  /** In a + "/" + b the only "/" is the one between them. */
  lemma OneSlash(rest: string, a: string, b: string)
    requires rest == a + "/" + b && '/' !in a && '/' !in b
    ensures rest[|a|] == '/'
    ensures forall p :: 0 <= p < |rest| && p != |a| ==> rest[p] != '/'
  {
    forall p | 0 <= p < |rest| && p != |a| ensures rest[p] != '/' {
      if p < |a| {
        assert rest[p] == a[p];
      } else {
        assert rest[p] == b[p - |a| - 1];
      }
    }
  }

  /** The pieces of the route test: "/user/:id" and "/user/12". */
  lemma UserRoutePieces()
    ensures Split("/user/:id", "/") == ["", "user", ":id"]
    ensures Split("/user/12", "/") == ["", "user", "12"]
  {
    PatternPieces();
    RealPieces();
  }

  lemma PatternPieces()
    ensures Split("/user/:id", "/") == ["", "user", ":id"]
  {
    TwoLevelPieces("/user/:id", "user", ":id");
  }

  lemma RealPieces()
    ensures Split("/user/12", "/") == ["", "user", "12"]
  {
    TwoLevelPieces("/user/12", "user", "12");
  }

  /** One more piece: an empty one changes nothing, any other adds its
    * name. */
  lemma PathNamesSnoc(pieces: seq<string>, key: string)
    ensures PathNames(pieces + [key]) ==
      if PathNames(pieces).Panic? || key == "" then PathNames(pieces)
      else if PathName(key).Panic? then Panic(PathName(key).message)
      else Done(PathNames(pieces).value + [PathName(key).value])
  {
    assert (pieces + [key])[..|pieces|] == pieces;
  }

  /** The names of a route "/a/b" of two non-empty pieces. */
  lemma TwoLevelNames(a: string, b: string)
    requires a != "" && b != "" && PathName(a).Done? && PathName(b).Done?
    ensures PathNames(["", a, b]) == Done([PathName(a).value, PathName(b).value])
  {
    var e: seq<string> := [];
    assert PathNames(e) == Done([]);
    PathNamesSnoc(e, "");
    assert e + [""] == [""];
    assert PathNames([""]) == Done([]);
    PathNamesSnoc([""], a);
    assert [""] + [a] == ["", a];
    var va, vb := PathName(a).value, PathName(b).value;
    assert PathNames([""]).value + [va] == [va];
    assert PathNames(["", a]) == Done([va]);
    assert [va] + [vb] == [va, vb];
    PathNamesSnoc(["", a], b);
    assert ["", a] + [b] == ["", a, b];
  }

  /** The names of the route test: ["user", "id"] and ["user", "12"]. */
  lemma UserRouteNames()
    ensures PathNames(["", "user", ":id"]) == Done(["user", "id"])
    ensures PathNames(["", "user", "12"]) == Done(["user", "12"])
  {
    PlainName("user");
    PlainName("12");
    assert ":id"[..1] == ":" && ":id"[2..] != ":";
    assert PathName(":id") == Done("id");
    TwoLevelNames("user", ":id");
    TwoLevelNames("user", "12");
  }

  /** The map GetPathValue builds from the names of the pattern and of the
    * real path: at each position where the two differ, the pattern name
    * maps to the real one. A real path with fewer names indexes past its
    * end, and Go panics. */
  function PathValues(rawObj: seq<string>, realObj: seq<string>): (r: Outcome<map<string, string>>)
    ensures r.Done? <==> |rawObj| <= |realObj|
  {
    if |rawObj| > |realObj| then Panic("index out of range")
    else Done(PathValuesOf(rawObj, realObj, |rawObj|))
  }

  /** The map after the first n positions. */
  function PathValuesOf(rawObj: seq<string>, realObj: seq<string>, n: nat): map<string, string>
    requires n <= |rawObj| && n <= |realObj|
  {
    if n == 0 then map[]
    else
      var m := PathValuesOf(rawObj, realObj, n - 1);
      if rawObj[n - 1] != realObj[n - 1] then m[rawObj[n - 1] := realObj[n - 1]] else m
  }

  /** What GetPathValue records: every name in the map differs from the real
    * name at a position where it stands, and every position where the two
    * differ puts its pattern name in the map. When the pattern names are
    * distinct, the value is the real name at that very position. */
  lemma {:induction false} PathValuesMeaning(rawObj: seq<string>, realObj: seq<string>, n: nat)
    requires n <= |rawObj| && n <= |realObj|
    ensures forall k :: k in PathValuesOf(rawObj, realObj, n) ==>
      exists i :: 0 <= i < n && rawObj[i] == k && realObj[i] == PathValuesOf(rawObj, realObj, n)[k] && k != realObj[i]
    ensures forall i :: 0 <= i < n && rawObj[i] != realObj[i] ==> rawObj[i] in PathValuesOf(rawObj, realObj, n)
    ensures (forall i, j :: 0 <= i < j < n ==> rawObj[i] != rawObj[j]) ==>
      forall i :: 0 <= i < n && rawObj[i] != realObj[i] ==> PathValuesOf(rawObj, realObj, n)[rawObj[i]] == realObj[i]
    decreases n
  {
    if n > 0 {
      PathValuesMeaning(rawObj, realObj, n - 1);
    }
  }

  /** GetPathValue: parse both paths and record each pattern name whose real
    * counterpart differs. */
  method GetPathValue(raw: string, realPath: string) returns (r: Outcome<map<string, string>>)
    ensures var rawObj, realObj := PathNames(Split(raw, "/")), PathNames(Split(realPath, "/"));
      r == if rawObj.Panic? then Panic(rawObj.message)
           else if realObj.Panic? then Panic(realObj.message)
           else PathValues(rawObj.value, realObj.value)
  {
    var rawObj := PathParse(raw);
    if rawObj.Panic? {
      return Panic(rawObj.message);
    }
    var realObj := PathParse(realPath);
    if realObj.Panic? {
      return Panic(realObj.message);
    }
    var names, values := rawObj.value, realObj.value;
    var valObj := map[];
    for idx := 0 to |names|
      invariant idx <= |values| && valObj == PathValuesOf(names, values, idx)
    {
      if idx >= |values| {
        return Panic("index out of range");
      }
      if names[idx] != values[idx] {
        valObj := valObj[names[idx] := values[idx]];
      }
    }
    r := Done(valObj);
  }

  /** The route test: "/user/:id" against "/user/12" maps "id" to "12" and
    * nothing else. */
  lemma UserRouteValue()
    ensures PathValues(["user", "id"], ["user", "12"]) == Done(map["id" := "12"])
  {
    assert PathValuesOf(["user", "id"], ["user", "12"], 1) == map[];
  }

  /** Cookie: the parsed key/value table and the two separators. */
  class Cookie {
    var query: map<string, string>
    var delimiter: string
    var joiner: string
    /** Whether `query` holds a map that `make` created. Go's zero Cookie has
      * a nil map: it reads as empty, but writing to it panics. */
    var made: bool

    /** A cookie value before NewCookie: Go's zero struct, whose map is nil. */
    constructor ()
      ensures query == map[] && delimiter == "" && joiner == "" && !made
    {
      query := map[];
      delimiter := "";
      joiner := "";
      made := false;
    }

    /** NewCookie: split on the delimiter, then each item on the joiner; the
      * first part maps to the second. An item without the joiner has no
      * second part, and Go panics. */
    method NewCookie(cookie: string, delimiter: string, joiner: string) returns (r: Outcome<Cookie>)
      modifies this
      ensures this.delimiter == delimiter && this.joiner == joiner && made
      ensures var q := CookieTable(Split(cookie, delimiter), joiner);
        q.Done? ==> r == Done(this) && query == q.value
      ensures CookieTable(Split(cookie, delimiter), joiner).Panic? ==> r.Panic?
    {
      this.delimiter := delimiter;
      this.joiner := joiner;
      var cookiesList := Split(cookie, delimiter);
      query := map[];
      made := true;
      for i := 0 to |cookiesList|
        invariant this.delimiter == delimiter && this.joiner == joiner && made
        invariant CookieTable(cookiesList[..i], joiner) == Done(query)
      {
        var keyAndValue := Split(cookiesList[i], joiner);
        CookieTableExtend(cookiesList, joiner, i, query);
        if |keyAndValue| < 2 {
          CookieTablePanic(cookiesList, joiner, i + 1);
          return Panic("index out of range");
        }
        query := query[keyAndValue[0] := keyAndValue[1]];
      }
      assert cookiesList[..|cookiesList|] == cookiesList;
      r := Done(this);
    }

    /** PutOne: insert or overwrite one key. On a cookie whose map was never
      * made, the assignment panics and nothing changes. */
    method PutOne(key: string, val: string) returns (r: Outcome<Cookie>)
      modifies this
      ensures !old(made) ==> r == Panic("assignment to entry in nil map") && query == old(query)
      ensures old(made) ==> r == Done(this) && query == old(query)[key := val]
      ensures delimiter == old(delimiter) && joiner == old(joiner) && made == old(made)
    {
      if !made {
        return Panic("assignment to entry in nil map");
      }
      query := query[key := val];
      r := Done(this);
    }

    /** GetAll: the table itself. */
    function GetAll(): (r: map<string, string>)
      reads this
      ensures r == query
    {
      query
    }
  }

  /** The table NewCookie builds from its items, each split on the joiner,
    * or a panic for the first item with nothing after the joiner. */
  function CookieTable(items: seq<string>, joiner: string): Outcome<map<string, string>>
  {
    if items == [] then Done(map[])
    else
      var init := CookieTable(items[..|items| - 1], joiner);
      var keyAndValue := Split(items[|items| - 1], joiner);
      if init.Panic? then init
      else if |keyAndValue| < 2 then Panic("index out of range")
      else Done(init.value[keyAndValue[0] := keyAndValue[1]])
  }

  lemma {:induction false} CookieTablePanic(items: seq<string>, joiner: string, n: nat)
    requires n <= |items| && CookieTable(items[..n], joiner).Panic?
    ensures CookieTable(items, joiner).Panic?
    decreases |items| - n
  {
    if n < |items| {
      assert items[..n + 1][..n] == items[..n];
      CookieTablePanic(items, joiner, n + 1);
    } else {
      assert items[..n] == items;
    }
  }

  /** Every item of a table that was built has a key and a value, and its
    * key is present. */
  lemma {:induction false} CookieTableKeys(items: seq<string>, joiner: string)
    requires CookieTable(items, joiner).Done?
    ensures forall i :: 0 <= i < |items| ==>
      |Split(items[i], joiner)| >= 2 && Split(items[i], joiner)[0] in CookieTable(items, joiner).value
    decreases |items|
  {
    if items != [] {
      var init := items[..|items| - 1];
      var last := Split(items[|items| - 1], joiner);
      CookieTableKeys(init, joiner);
      CookieTableStep(items, joiner);
      var t0, t := CookieTable(init, joiner).value, CookieTable(items, joiner).value;
      assert t == t0[last[0] := last[1]];
      forall i | 0 <= i < |items|
        ensures |Split(items[i], joiner)| >= 2 && Split(items[i], joiner)[0] in t
      {
        if i < |init| {
          assert items[i] == init[i];
          assert Split(init[i], joiner)[0] in t0;
        } else {
          assert items[i] == items[|items| - 1];
        }
      }
    }
  }

  /** One more item: its pair is put in, or the table panics when the item
    * has no joiner. */
  lemma CookieTableExtend(items: seq<string>, joiner: string, i: nat, query: map<string, string>)
    requires i < |items| && CookieTable(items[..i], joiner) == Done(query)
    ensures var kv := Split(items[i], joiner);
      CookieTable(items[..i + 1], joiner) ==
        if |kv| < 2 then Panic("index out of range") else Done(query[kv[0] := kv[1]])
  {
    assert items[..i + 1][..i] == items[..i];
  }

  /** A table that builds is the table of all but the last item, with the
    * last item's pair put in. */
  lemma CookieTableStep(items: seq<string>, joiner: string)
    requires items != [] && CookieTable(items, joiner).Done?
    ensures var init, last := items[..|items| - 1], Split(items[|items| - 1], joiner);
      CookieTable(init, joiner).Done? && |last| >= 2 &&
      CookieTable(items, joiner).value == CookieTable(init, joiner).value[last[0] := last[1]]
  {
  }

  /** An item whose key no later item carries gives that key its value. */
  lemma {:induction false} CookieTableLast(items: seq<string>, joiner: string, i: nat)
    requires CookieTable(items, joiner).Done? && i < |items|
    requires |Split(items[i], joiner)| >= 2
    requires forall j :: i < j < |items| ==> |Split(items[j], joiner)| < 1 || Split(items[j], joiner)[0] != Split(items[i], joiner)[0]
    ensures Split(items[i], joiner)[0] in CookieTable(items, joiner).value
    ensures CookieTable(items, joiner).value[Split(items[i], joiner)[0]] == Split(items[i], joiner)[1]
    decreases |items|
  {
    CookieTableKeys(items, joiner);
    if i < |items| - 1 {
      var init := items[..|items| - 1];
      assert items[i] == init[i];
      assert forall j :: i < j < |init| ==> items[j] == init[j];
      CookieTableLast(init, joiner, i);
    }
  }

  /** Only the keys of items are present. */
  lemma {:induction false} CookieTableOnlyKeys(items: seq<string>, joiner: string, k: string)
    requires CookieTable(items, joiner).Done? && k in CookieTable(items, joiner).value
    ensures exists i :: 0 <= i < |items| && |Split(items[i], joiner)| >= 2 && Split(items[i], joiner)[0] == k
    decreases |items|
  {
    var init := items[..|items| - 1];
    var kv := Split(items[|items| - 1], joiner);
    if kv[0] != k {
      CookieTableOnlyKeys(init, joiner, k);
      var i :| 0 <= i < |init| && |Split(init[i], joiner)| >= 2 && Split(init[i], joiner)[0] == k;
      assert items[i] == init[i];
    }
  }

  /** a + [c] + b splits on c into a and b when c occurs in neither. */
  lemma SplitPair(s: string, a: string, b: string, c: char)
    requires s == a + [c] + b && c !in a && c !in b
    ensures Split(s, [c]) == [a, b]
  {
    forall p | 0 <= p < |s| && p != |a| ensures s[p] != c {
      if p < |a| {
        assert s[p] == a[p];
      } else {
        assert s[p] == b[p - |a| - 1];
      }
    }
    SplitCharOnce(s, c, |a|);
    assert s[..|a|] == a && s[|a| + 1..] == b;
  }

  /** a + [c] + rest splits on c into a, then the pieces of rest, when c
    * does not occur in a. */
  lemma SplitHead(s: string, a: string, rest: string, c: char)
    requires s == a + [c] + rest && c !in a
    ensures Split(s, [c]) == [a] + Split(rest, [c])
  {
    assert forall p :: 0 <= p < |a| ==> s[p] == a[p];
    SplitCharFirst(s, c, |a|);
    assert s[..|a|] == a && s[|a| + 1..] == rest;
  }

  /** The first item of the test's cookie text. */
  lemma CookieTestHead(s: string, rest: string)
    requires s == "a=b&c=23&k=66" && rest == "c=23&k=66"
    ensures Split(s, "&") == ["a=b"] + Split(rest, "&")
  {
    assert s == "a=b" + ['&'] + rest;
    SplitHead(s, "a=b", rest, '&');
  }

  /** The last two items of the test's cookie text. */
  lemma CookieTestTail(rest: string)
    requires rest == "c=23&k=66"
    ensures Split(rest, "&") == ["c=23", "k=66"]
  {
    assert rest == "c=23" + ['&'] + "k=66";
    SplitPair(rest, "c=23", "k=66", '&');
  }

  /** Each item is a key, "=" and a value. */
  lemma CookieTestPair(item: string, key: string, val: string)
    requires item == key + "=" + val && '=' !in key && '=' !in val
    ensures Split(item, "=") == [key, val]
  {
    SplitPair(item, key, val, '=');
  }

  /** Three items that each split into a key and a value give the table
    * of those pairs, later items winning. */
  lemma CookieTableOfThree(items: seq<string>, joiner: string, kv0: seq<string>, kv1: seq<string>, kv2: seq<string>)
    requires |items| == 3 && |kv0| == 2 && |kv1| == 2 && |kv2| == 2
    requires Split(items[0], joiner) == kv0 && Split(items[1], joiner) == kv1 && Split(items[2], joiner) == kv2
    ensures CookieTable(items, joiner) == Done(map[kv0[0] := kv0[1]][kv1[0] := kv1[1]][kv2[0] := kv2[1]])
  {
    var one, two := items[..1], items[..2];
    assert one[..0] == [] && one[0] == items[0];
    assert CookieTable(one, joiner) == Done(map[kv0[0] := kv0[1]]);
    assert two[..1] == one && two[1] == items[1];
    assert CookieTable(two, joiner) == Done(map[kv0[0] := kv0[1]][kv1[0] := kv1[1]]);
    assert items[..2] == two;
  }

  /** The test's cookie text splits on "&" into its three items. */
  lemma CookieTestItems(s: string)
    requires s == "a=b&c=23&k=66"
    ensures Split(s, "&") == ["a=b", "c=23", "k=66"]
  {
    var rest := "c=23&k=66";
    CookieTestHead(s, rest);
    CookieTestTail(rest);
  }

  /** Each of the test's items splits on "=" into its key and value. */
  lemma CookieTestPairs(items: seq<string>)
    requires items == ["a=b", "c=23", "k=66"]
    ensures Split(items[0], "=") == ["a", "b"] && Split(items[1], "=") == ["c", "23"]
    ensures Split(items[2], "=") == ["k", "66"]
  {
    CookieTestPair(items[0], "a", "b");
    CookieTestPair(items[1], "c", "23");
    CookieTestPair(items[2], "k", "66");
  }

  /** The test's cookie text gives the table a ↦ b, c ↦ 23, k ↦ 66. */
  lemma CookieTestTable(s: string)
    requires s == "a=b&c=23&k=66"
    ensures CookieTable(Split(s, "&"), "=") == Done(map["a" := "b", "c" := "23", "k" := "66"])
  {
    CookieTestItems(s);
    CookieTestPairs(Split(s, "&"));
    CookieTableOfThree(Split(s, "&"), "=", ["a", "b"], ["c", "23"], ["k", "66"]);
  }

  /** The test's flow: a zero Cookie, NewCookie("a=b&c=23&k=66", "&", "=")
    * and PutOne("s", "v") leave the four pairs. */
  method CookieParse() returns (all: map<string, string>)
    ensures all == map["a" := "b", "c" := "23", "k" := "66", "s" := "v"]
  {
    var c := new Cookie();
    var text := "a=b&c=23&k=66";
    CookieTestTable(text);
    var made := c.NewCookie(text, "&", "=");
    var put := c.PutOne("s", "v");
    all := c.GetAll();
  }

  /** PutOne on a zero Cookie, whose map was never made, panics. */
  method ZeroCookiePutOne() returns (r: Outcome<Cookie>)
    ensures r == Panic("assignment to entry in nil map")
  {
    var c := new Cookie();
    r := c.PutOne("s", "v");
  }

  /** ToLowerCamelCase: the first character lower-cased, the rest as it
    * is; "" is returned unchanged. */
  function ToLowerCamelCase(s: string): (r: string)
    ensures |r| == |s|
    ensures s != [] ==> r[1..] == s[1..] && !IsUpper(r[0])
    ensures s != [] && IsUpper(s[0]) ==> r[0] as int == s[0] as int + 32
    ensures s != [] && !IsUpper(s[0]) ==> r == s
  {
    if |s| == 0 then s
    else if IsUpper(s[0]) then [(s[0] as int + 32) as char] + s[1..]
    else s
  }
}
