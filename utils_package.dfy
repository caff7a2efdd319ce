/** utils/utils.go: a second package holding near-copies of the root
  * helpers. Where a copy is the same code as its root original, the model
  * runs the root model and states the equality; what differs is modelled
  * here. */
module UtilsPackage {
  import opened Outcomes
  import opened GoStrings
  import Slices
  import TextUtils
  import Funcs

  /** Template: this copy has no placeholder argument and always looks for
    * "{k}"; each entry replaces the first occurrence of its key. */
  method Template(source: string, data: seq<(string, string)>) returns (r: string)
    ensures r == TextUtils.Substituted(source, data, "{}")
  {
    var sourceCopy := source;
    for i := 0 to |data|
      invariant sourceCopy == TextUtils.Substituted(source, data[..i], "{}")
    {
      assert data[..i + 1][..i] == data[..i];
      var (k, valStr) := data[i];
      sourceCopy := ReplaceFirst(sourceCopy, "{" + k + "}", valStr);
    }
    assert data[..|data|] == data;
    r := sourceCopy;
  }

  /** The root Template's "{}" placeholder is this copy's "{k}". */
  lemma BracePlaceholder(k: string)
    ensures TextUtils.TemplateKey("{}", k) == "{" + k + "}"
  {
  }

  /** The package's template test: "{a} {b}" gives "hello world" in either
    * order of the map. */
  lemma TemplateHelloWorld()
    ensures TextUtils.Substituted("{a} {b}", [("a", "hello"), ("b", "world")], "{}") == "hello world"
    ensures TextUtils.Substituted("{a} {b}", [("b", "world"), ("a", "hello")], "{}") == "hello world"
  {
    TextUtils.TemplateHelloWorld();
    assert TextUtils.TemplateSyntax("") == "{}";
  }

  /** pathParse: the same code as the root copy. */
  method PathParse(target: string) returns (obj: Outcome<seq<string>>)
    ensures obj == TextUtils.PathNames(Split(target, "/"))
  {
    obj := TextUtils.PathParse(target);
  }

  /** GetPathValue: the same code as the root copy. */
  method GetPathValue(raw: string, realPath: string) returns (r: Outcome<map<string, string>>)
    ensures var rawObj, realObj := TextUtils.PathNames(Split(raw, "/")), TextUtils.PathNames(Split(realPath, "/"));
      r == if rawObj.Panic? then Panic(rawObj.message)
           else if realObj.Panic? then Panic(realObj.message)
           else TextUtils.PathValues(rawObj.value, realObj.value)
  {
    r := TextUtils.GetPathValue(raw, realPath);
  }

  /** The Cookie type of this package has the same fields and methods as the
    * root one: PutOne followed by GetAll shows the new pair, and every other
    * entry is as it was; on a cookie whose map was never made, PutOne
    * panics. */
  method PutOneThenGetAll(c: TextUtils.Cookie, key: string, val: string) returns (all: Outcome<map<string, string>>)
    modifies c
    ensures !old(c.made) ==> all == Panic("assignment to entry in nil map")
    ensures old(c.made) ==> all.Done? && key in all.value && all.value[key] == val
    ensures old(c.made) ==> forall k :: k != key ==>
      (k in all.value <==> k in old(c.query)) && (k in all.value ==> all.value[k] == old(c.query)[k])
  {
    var r := c.PutOne(key, val);
    if r.Panic? {
      return Panic(r.message);
    }
    all := Done(c.GetAll());
  }

  /** Chunk on []int: the same loop as the generic Chunk. */
  method Chunk(slice: seq<int>, size: int) returns (r: Outcome<seq<seq<int>>>)
    requires size != 0 || |slice| == 0
    ensures size > 0 || |slice| == 0 ==> r.Done? && Slices.IsChunking(slice, size, r.value)
    ensures size < 0 && |slice| > 0 ==> r.Panic?
  {
    r := Slices.Chunk(slice, size);
  }

  /** Compose: the same code as func.go's Compose; an empty list panics. */
  function Compose<T>(funcs: seq<seq<T> -> T>): (r: Outcome<seq<T> -> T>)
    ensures r == Funcs.Compose(funcs)
    ensures r.Panic? <==> |funcs| == 0
  {
    Funcs.Compose(funcs)
  }

  /** ToLowerCamelCase: the same code as the root copy. */
  function ToLowerCamelCase(s: string): (r: string)
    ensures r == TextUtils.ToLowerCamelCase(s)
    ensures s == "" ==> r == ""
    ensures s != [] && TextUtils.IsUpper(s[0]) ==> r[0] as int == s[0] as int + 32 && r[1..] == s[1..]
  {
    if |s| == 0 then s else TextUtils.ToLowerCamelCase(s)
  }
}
