/** The request helpers of the HTTP layer (`main.py`): the upload and question
    guards, the model-name normalisation for OpenRouter, and the quiz-size
    parameter with Python's `int()` conversion of a JSON value. */
module Api {
  import opened Wrappers
  import opened Text

  // ---------------------------------------------------------------------------
  // Request guards

  /** A JSON value as decoded from a request body. */
  datatype Json =
    | JNull
    | JBool(b: bool)
    | JInt(i: int)
    | JFloat(f: real)
    | JStr(s: string)
    | JArray(items: seq<Json>)
    | JObject(fields: map<string, Json>)

  /** Python truthiness of a decoded JSON value. */
  predicate Truthy(v: Json) {
    match v
    case JNull => false
    case JBool(b) => b
    case JInt(i) => i != 0
    case JFloat(f) => f != 0.0
    case JStr(s) => s != ""
    case JArray(items) => items != []
    case JObject(fields) => fields != map[]
  }

  /** The upload guard: only names ending in `.pdf` (exactly, in lower case)
      are accepted. */
  predicate UploadAccepted(filename: string) {
    EndsWith(filename, ".pdf")
  }

  /** The extension check is case-sensitive and looks only at the end. */
  lemma UploadGuardExamples()
    ensures UploadAccepted("report.pdf")
    ensures !UploadAccepted("REPORT.PDF")
    ensures !UploadAccepted("report.pdf.txt")
    ensures !UploadAccepted("pdf")
  {
    assert "report.pdf"[6..] == ".pdf";
    assert "REPORT.PDF"[6..] != ".pdf" by {
      assert "REPORT.PDF"[6..][1] == 'P';
    }
    assert "report.pdf.txt"[10..] != ".pdf" by {
      assert "report.pdf.txt"[10..][1] == 't';
    }
  }

  /** The question guard: `data.get("question")` must be present and truthy. */
  predicate QuestionAccepted(question: Option<Json>) {
    question.Some? && Truthy(question.value)
  }

  /** A missing question, `null` and the empty string are all rejected; any
      non-empty string is accepted. */
  lemma QuestionGuardSpec(s: string)
    ensures !QuestionAccepted(None) && !QuestionAccepted(Some(JNull)) && !QuestionAccepted(Some(JStr("")))
    ensures QuestionAccepted(Some(JStr(s))) <==> s != ""
  {
  }

  // ---------------------------------------------------------------------------
  // Model names

  /** The model id sent to the API for an optional override. Without
      OpenRouter a given name is used as is. For OpenRouter a name with a
      provider prefix only has `claude-3.5` rewritten to `claude-3-5`; a bare
      name gets a provider by its first letters, Claude names also having every
      `3.5` rewritten to `3-5`. An absent or empty name means no override. */
  function NormalizeModelName(modelName: Option<string>, useOpenRouter: bool): (r: Option<string>)
    ensures r.None? <==> modelName.None? || modelName.value == ""
    ensures useOpenRouter && modelName.Some? && Contains(modelName.value, "/") ==>
      r == Some(ReplaceAll(modelName.value, "claude-3.5", "claude-3-5"))
    ensures useOpenRouter && modelName.Some? && modelName.value != "" && !Contains(modelName.value, "/") ==>
              var name := modelName.value;
              (StartsWith(name, "gpt") ==> r == Some("openai/" + name))
              && (!StartsWith(name, "gpt") && StartsWith(name, "claude")
                  ==> r == Some("anthropic/" + ReplaceAll(name, "3.5", "3-5")))
              && (!StartsWith(name, "gpt") && StartsWith(name, "llama") ==> r == Some("meta/" + name))
              && (!StartsWith(name, "gpt") && StartsWith(name, "gemini") ==> r == Some("google/" + name))
              && (!(StartsWith(name, "gpt") || StartsWith(name, "claude") || StartsWith(name, "llama")
                    || StartsWith(name, "gemini"))
                  ==> r == Some("openai/" + name))
  {
    if modelName.None? || modelName.value == "" then None
    else
      var name := modelName.value;
      if !useOpenRouter then Some(name)
      else if Contains(name, "/") then
        if Contains(name, "claude-3.5") then Some(ReplaceAll(name, "claude-3.5", "claude-3-5"))
        else
          ReplaceAbsent(name, "claude-3.5", "claude-3-5");
          Some(name)
      else if StartsWith(name, "gpt") then Some("openai/" + name)
      else if StartsWith(name, "claude") then Some("anthropic/" + ReplaceAll(name, "3.5", "3-5"))
      else if StartsWith(name, "llama") then Some("meta/" + name)
      else if StartsWith(name, "gemini") then Some("google/" + name)
      else Some("openai/" + name)
  }

  /** Without OpenRouter the override is passed through untouched. */
  lemma DirectPassesThrough(name: string)
    requires name != ""
    ensures NormalizeModelName(Some(name), false) == Some(name)
  {
  }

  /** With OpenRouter every override names a provider: the result contains a
      `/`, and a name that already had one keeps its length. */
  lemma OpenRouterNamesProvider(name: string)
    requires name != ""
    ensures Contains(NormalizeModelName(Some(name), true).value, "/")
    ensures Contains(name, "/") ==> |NormalizeModelName(Some(name), true).value| == |name|
  {
    var r := NormalizeModelName(Some(name), true).value;
    if Contains(name, "/") {
      if Contains(name, "claude-3.5") {
        ReplaceSameLength(name, "claude-3.5", "claude-3-5");
        ReplaceKeepsSlash(name);
      }
    } else {
      var provider :=
        if StartsWith(name, "gpt") then "openai/"
        else if StartsWith(name, "claude") then "anthropic/"
        else if StartsWith(name, "llama") then "meta/"
        else if StartsWith(name, "gemini") then "google/"
        else "openai/";
      var rest := r[|provider|..];
      assert r == provider + rest;
      assert OccursAt(r, "/", |provider| - 1) by {
        assert r[|provider| - 1..|provider|] == "/";
      }
      ContainsIff(r, "/");
    }
  }

  /** Rewriting `claude-3.5` (which has no `/`) keeps every `/`. */
  lemma ReplaceKeepsSlash(name: string)
    requires Contains(name, "/")
    ensures Contains(ReplaceAll(name, "claude-3.5", "claude-3-5"), "/")
  {
    ContainsIff(name, "/");
    var i :| OccursAt(name, "/", i);
    SlashSurvives(name, i);
    ContainsIff(ReplaceAll(name, "claude-3.5", "claude-3-5"), "/");
  }

  lemma {:induction false} SlashSurvives(s: string, i: nat)
    requires i < |s| && s[i] == '/'
    ensures exists j :: OccursAt(ReplaceAll(s, "claude-3.5", "claude-3-5"), "/", j)
    decreases |s|
  {
    var r := ReplaceAll(s, "claude-3.5", "claude-3-5");
    if "claude-3.5" <= s {
      assert i >= 10 by {
        assert s[..10] == "claude-3.5";
      }
      SlashSurvives(s[10..], i - 10);
      var j :| OccursAt(ReplaceAll(s[10..], "claude-3.5", "claude-3-5"), "/", j);
      assert r == "claude-3-5" + ReplaceAll(s[10..], "claude-3.5", "claude-3-5");
      assert OccursAt(r, "/", j + 10);
    } else if i == 0 {
      assert r == [s[0]] + ReplaceAll(s[1..], "claude-3.5", "claude-3-5");
      assert OccursAt(r, "/", 0);
    } else {
      SlashSurvives(s[1..], i - 1);
      var j :| OccursAt(ReplaceAll(s[1..], "claude-3.5", "claude-3-5"), "/", j);
      assert r == [s[0]] + ReplaceAll(s[1..], "claude-3.5", "claude-3-5");
      assert OccursAt(r, "/", j + 1);
    }
  }

  /** `replace('3.5', '3-5')` leaves no `3.5` behind: the rewrite cannot
      create a new occurrence across its edges. */
  lemma {:induction false} NoDottedVersionLeft(s: string)
    ensures !Contains(ReplaceAll(s, "3.5", "3-5"), "3.5")
    decreases |s|
  {
    var r := ReplaceAll(s, "3.5", "3-5");
    if "3.5" <= s {
      var y := ReplaceAll(s[3..], "3.5", "3-5");
      NoDottedVersionLeft(s[3..]);
      assert r == "3-5" + y;
      assert r[3..] == y;
      assert !Contains(r[2..], "3.5") by {
        assert r[2..][0] == '5' && r[2..][1..] == r[3..];
      }
      assert !Contains(r[1..], "3.5") by {
        assert r[1..][0] == '-' && r[1..][1..] == r[2..];
      }
      assert !("3.5" <= r) by {
        assert r[1] == '-';
      }
    } else if s != [] {
      var y := ReplaceAll(s[1..], "3.5", "3-5");
      NoDottedVersionLeft(s[1..]);
      assert r == [s[0]] + y;
      assert r[1..] == y;
      StartsDotFive(s[1..]);
    }
  }

  /** The rewrite keeps the first character. */
  lemma SameFirstChar(u: string)
    ensures |ReplaceAll(u, "3.5", "3-5")| > 0 <==> |u| > 0
    ensures |u| > 0 ==> ReplaceAll(u, "3.5", "3-5")[0] == u[0]
  {
  }

  /** The rewrite starts with `.5` exactly when the text does. */
  lemma StartsDotFive(t: string)
    ensures ".5" <= ReplaceAll(t, "3.5", "3-5") <==> ".5" <= t
  {
    var r := ReplaceAll(t, "3.5", "3-5");
    if !("3.5" <= t) && t != [] && t[0] == '.' {
      assert r == [t[0]] + ReplaceAll(t[1..], "3.5", "3-5");
      SameFirstChar(t[1..]);
    }
  }

  /** With OpenRouter a name that already names a provider is sent with
      every `claude-3.5` rewritten, and none is left. */
  lemma SlashedNamesUseHyphens(name: string)
    requires Contains(name, "/")
    ensures NormalizeModelName(Some(name), true) == Some(ReplaceAll(name, "claude-3.5", "claude-3-5"))
    ensures !Contains(NormalizeModelName(Some(name), true).value, "claude-3.5")
  {
    NoClaudeDotLeft(name);
  }

  /** `replace('claude-3.5', 'claude-3-5')` leaves no `claude-3.5` behind:
      the only `c` of the pattern is its first character, so no occurrence
      can straddle a rewritten one. */
  lemma {:induction false} NoClaudeDotLeft(s: string)
    ensures !Contains(ReplaceAll(s, "claude-3.5", "claude-3-5"), "claude-3.5")
    decreases |s|
  {
    var r := ReplaceAll(s, "claude-3.5", "claude-3-5");
    if "claude-3.5" <= s {
      var y := ReplaceAll(s[10..], "claude-3.5", "claude-3-5");
      NoClaudeDotLeft(s[10..]);
      assert r == "claude-3-5" + y;
      assert r[1..][9..] == y;
      forall i | 0 <= i < 9
        ensures r[1..][i] != 'c'
      {
        assert r[1..][i] == "laude-3-5"[i];
      }
      NoCThenAbsent(r[1..], 9);
      assert r[8] == '-';
    } else if s != [] {
      var y := ReplaceAll(s[1..], "claude-3.5", "claude-3-5");
      NoClaudeDotLeft(s[1..]);
      assert r == [s[0]] + y;
      assert r[1..] == y;
      if s[0] == 'c' {
        PrefixWithoutC(s[1..], "laude-3.5");
        assert !("laude-3.5" <= y);
      } else {
        assert r[0] != "claude-3.5"[0];
      }
      assert !("claude-3.5" <= r);
    }
  }

  /** A text whose first k characters are not `c` contains `claude-3.5`
      only if its remainder from k does. */
  lemma {:induction false} NoCThenAbsent(r: string, k: nat)
    requires k <= |r| && forall i :: 0 <= i < k ==> r[i] != 'c'
    requires !Contains(r[k..], "claude-3.5")
    ensures !Contains(r, "claude-3.5")
    decreases k
  {
    if k > 0 {
      assert r[1..][k - 1..] == r[k..];
      NoCThenAbsent(r[1..], k - 1);
      assert r[0] != "claude-3.5"[0];
    } else {
      assert r[k..] == r;
    }
  }

  /** A prefix without `c` is unaffected by the rewrite, which only acts
      where a `c` starts. */
  lemma {:induction false} PrefixWithoutC(t: string, w: string)
    requires forall k :: 0 <= k < |w| ==> w[k] != 'c'
    ensures w <= ReplaceAll(t, "claude-3.5", "claude-3-5") <==> w <= t
    decreases |w|
  {
    var r := ReplaceAll(t, "claude-3.5", "claude-3-5");
    if w != [] {
      if "claude-3.5" <= t {
        assert r[0] == 'c' && t[0] == 'c';
      } else if t != [] {
        assert r == [t[0]] + ReplaceAll(t[1..], "claude-3.5", "claude-3-5");
        PrefixWithoutC(t[1..], w[1..]);
        assert w <= r <==> w[0] == t[0] && w[1..] <= r[1..];
        assert w <= t <==> w[0] == t[0] && w[1..] <= t[1..];
      }
    }
  }

  /** The OpenRouter id of a bare Claude name never contains `3.5`. */
  lemma ClaudeNamesUseHyphens(name: string)
    requires name != "" && !Contains(name, "/") && StartsWith(name, "claude")
    ensures NormalizeModelName(Some(name), true) == Some("anthropic/" + ReplaceAll(name, "3.5", "3-5"))
    ensures !Contains(ReplaceAll(name, "3.5", "3-5"), "3.5")
  {
    NoDottedVersionLeft(name);
  }

  // ---------------------------------------------------------------------------
  // The quiz size

  const QuizDefault: int := 10
  const QuizMin: int := 1
  const QuizMax: int := 20

  /** Digits with single underscores between them, as `int()` accepts. */
  predicate ValidDigits(b: string) {
    && |b| > 0 && IsDigit(b[0]) && IsDigit(b[|b| - 1])
    && (forall k :: 0 <= k < |b| ==> IsDigit(b[k]) || b[k] == '_')
    && (forall k :: 0 <= k < |b| - 1 ==> b[k] == '_' ==> b[k + 1] != '_')
  }

  function DropUnderscores(b: string): (d: string)
    ensures (forall k :: 0 <= k < |b| ==> IsDigit(b[k]) || b[k] == '_') ==> AllDigits(d)
    decreases |b|
  {
    if b == [] then [] else (if b[0] == '_' then [] else [b[0]]) + DropUnderscores(b[1..])
  }

  /** The padding `int()` skips around a number: the `str.isspace()`
      characters except the separators U+001C..U+001F. CPython maps only
      non-ASCII whitespace to a space before parsing and then skips the six
      ASCII whitespace characters, so those four ASCII separators reach the
      digit parser and make it fail. */
  predicate IntPadding(c: char) {
    IsSpace(c) && !('\U{1c}' <= c <= '\U{1f}')
  }

  function TrimLeft(s: string): string
    decreases |s|
  {
    if s != [] && IntPadding(s[0]) then TrimLeft(s[1..]) else s
  }

  function TrimRight(s: string): string
    decreases |s|
  {
    if s != [] && IntPadding(s[|s| - 1]) then TrimRight(s[..|s| - 1]) else s
  }

  /** The text `int()` parses once its padding is removed. */
  function Trim(s: string): string {
    TrimRight(TrimLeft(s))
  }

  /** `int(s)` for a string, base 10: surrounding padding, an optional
      sign, and digits with single underscores between them. */
  function PythonInt(s: string): (r: Option<int>) {
    var t := Trim(s);
    var negative := t != [] && t[0] == '-';
    var body := if t != [] && (t[0] == '+' || t[0] == '-') then t[1..] else t;
    if ValidDigits(body) then
      var v: int := DigitsValue(DropUnderscores(body));
      Some(if negative then -v else v)
    else None
  }

  lemma DropUnderscoresDigits(d: string)
    requires AllDigits(d)
    ensures DropUnderscores(d) == d
  {
  }

  lemma TrimKeeps(s: string)
    requires s != [] && !IntPadding(s[0]) && !IntPadding(s[|s| - 1])
    ensures Trim(s) == s
  {
  }

  /** Trimming the right end keeps a first character that is not padding. */
  lemma {:induction false} TrimRightKeepsHead(s: string)
    requires s != [] && !IntPadding(s[0])
    ensures TrimRight(s) != [] && TrimRight(s)[0] == s[0]
    decreases |s|
  {
    if IntPadding(s[|s| - 1]) {
      TrimRightKeepsHead(s[..|s| - 1]);
    }
  }

  /** Padding on either side of a number does not change what `int()`
      reads. */
  lemma PaddingIsSkipped(p: string, s: string, q: string)
    requires forall k :: 0 <= k < |p| ==> IntPadding(p[k])
    requires forall k :: 0 <= k < |q| ==> IntPadding(q[k])
    requires s != [] && !IntPadding(s[0]) && !IntPadding(s[|s| - 1])
    ensures PythonInt(p + s + q) == PythonInt(s)
  {
    assert p + s + q == p + (s + q);
    TrimLeftSkips(p, s + q);
    TrimRightSkips(s, q);
    TrimKeeps(s);
  }

  lemma {:induction false} TrimLeftSkips(p: string, x: string)
    requires forall k :: 0 <= k < |p| ==> IntPadding(p[k])
    requires x != [] && !IntPadding(x[0])
    ensures TrimLeft(p + x) == x
    decreases |p|
  {
    if p != [] {
      assert (p + x)[1..] == p[1..] + x;
      TrimLeftSkips(p[1..], x);
    } else {
      assert p + x == x;
    }
  }

  lemma {:induction false} TrimRightSkips(x: string, q: string)
    requires forall k :: 0 <= k < |q| ==> IntPadding(q[k])
    requires x != [] && !IntPadding(x[|x| - 1])
    ensures TrimRight(x + q) == x
    decreases |q|
  {
    if q != [] {
      assert (x + q)[..|x + q| - 1] == x + q[..|q| - 1];
      TrimRightSkips(x, q[..|q| - 1]);
    } else {
      assert x + q == x;
    }
  }

  /** A leading separator U+001C..U+001F is not padding for `int()`: the
      conversion fails, whatever follows. */
  lemma SeparatorsAreNotPadding(c: char, s: string)
    requires '\U{1c}' <= c <= '\U{1f}'
    ensures PythonInt([c] + s).None?
  {
    TrimRightKeepsHead([c] + s);
  }

  /** Reading back a printed integer gives the integer. */
  lemma PythonIntRoundTrip(i: int)
    ensures PythonInt(IntToString(i)) == Some(i)
  {
    var s := IntToString(i);
    var d := NatToString(if i >= 0 then i else -i);
    TrimKeeps(s);
    DropUnderscoresDigits(d);
    DigitsRoundTrip(if i >= 0 then i else -i);
    if i < 0 {
      assert s[1..] == d;
    }
  }

  /** `int()` of a decoded JSON value: booleans count as 0 and 1, floats are
      truncated toward zero, strings are parsed; `null`, arrays and objects
      raise a type error. */
  function IntOf(v: Json): (r: Option<int>)
    ensures v.JInt? ==> r == Some(v.i)
    ensures v.JNull? || v.JArray? || v.JObject? ==> r.None?
  {
    match v
    case JBool(b) => Some(if b then 1 else 0)
    case JInt(i) => Some(i)
    case JFloat(f) => Some(if f >= 0.0 then f.Floor else -((-f).Floor))
    case JStr(s) => PythonInt(s)
    case _ => None
  }

  /** The quiz size: 10 unless the body has a `num_questions` that converts to
      an integer in [1, 20]. */
  function QuizCount(data: Option<map<string, Json>>): (n: int)
    ensures QuizMin <= n <= QuizMax
  {
    if data.Some? && data.value != map[] && "num_questions" in data.value then
      match IntOf(data.value["num_questions"])
      case Some(k) => if k < QuizMin || k > QuizMax then QuizDefault else k
      case None => QuizDefault
    else QuizDefault
  }

  /** The supplied value is used exactly when it converts to a number in
      range; everything else gives the default. */
  lemma QuizCountSpec(data: Option<map<string, Json>>)
    ensures var supplied :=
        if data.Some? && "num_questions" in data.value then IntOf(data.value["num_questions"]) else None;
      && (supplied.Some? && QuizMin <= supplied.value <= QuizMax ==> QuizCount(data) == supplied.value)
      && (!(supplied.Some? && QuizMin <= supplied.value <= QuizMax) ==> QuizCount(data) == QuizDefault)
  {
  }

  /** Values at and around the edges. */
  lemma QuizCountExamples()
    ensures QuizCount(None) == 10
    ensures QuizCount(Some(map["num_questions" := JInt(20)])) == 20
    ensures QuizCount(Some(map["num_questions" := JInt(21)])) == 10
    ensures QuizCount(Some(map["num_questions" := JInt(0)])) == 10
    ensures QuizCount(Some(map["num_questions" := JBool(true)])) == 1
    ensures QuizCount(Some(map["num_questions" := JFloat(19.9)])) == 19
    ensures QuizCount(Some(map["num_questions" := JNull])) == 10
    ensures QuizCount(Some(map["num_questions" := JStr("\U{1c}5")])) == 10
  {
    SeparatorsAreNotPadding('\U{1c}', "5");
    assert "\U{1c}5" == ['\U{1c}'] + "5";
  }
}
