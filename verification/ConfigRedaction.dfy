/**
 Redaction of the JSON configuration dump: two tree walks, one that looks at the
 keys and one, below a secret key, that hides every string.
 */
module ConfigRedaction {
  datatype Json =
    | Null
    | Bool(b: bool)
    | Number(n: real)
    | Str(s: string)
    | Arr(items: seq<Json>)
    | Obj(fields: map<string, Json>)

  const PLACEHOLDER := "<redacted>"

  const SECRET_KEY_TOKENS: seq<string> :=
    ["password", "apikey", "secret", "bottoken", "oauth", "credential", "token", "url", "dsn", "connectionstring", "privatekey"]

  const NON_SECRET_EXACT_KEYS: set<string> :=
    {"max_tokens", "max_history_tokens", "thinking_budget", "max_per_role", "external_base_url", "webuibaseurl", "endpoint"}

  /**
   Lower case as far as an ASCII token can tell: besides A-Z, only U+0130 and U+212A
   have an ASCII lower-case form.
   */
  function LowerChar(c: char): char {
    if 'A' <= c <= 'Z' then (c as int + 32) as char
    else if c == '\U{130}' then 'i'
    else if c == '\U{212A}' then 'k'
    else c
  }

  function Lower(s: string): string {
    seq(|s|, i requires 0 <= i < |s| => LowerChar(s[i]))
  }

  function WithoutUnderscores(s: string): string {
    if s == [] then [] else (if s[0] == '_' then [] else [s[0]]) + WithoutUnderscores(s[1..])
  }

  predicate OccursAt(s: string, token: string, i: int) {
    0 <= i <= |s| - |token| && s[i..i + |token|] == token
  }

  predicate Contains(s: string, token: string) {
    exists i :: 0 <= i <= |s| && OccursAt(s, token, i)
  }

  method IsSecretKey(collapsed: string) returns (r: bool)
    ensures r <==> exists i :: 0 <= i < |SECRET_KEY_TOKENS| && Contains(collapsed, SECRET_KEY_TOKENS[i])
  {
    for i := 0 to |SECRET_KEY_TOKENS|
      invariant forall j :: 0 <= j < i ==> !Contains(collapsed, SECRET_KEY_TOKENS[j])
    {
      if Contains(collapsed, SECRET_KEY_TOKENS[i]) {
        return true;
      }
    }
    return false;
  }

  /** The keys below which every string is hidden. */
  predicate Hides(key: string) {
    var lowered := Lower(key);
    && lowered !in NON_SECRET_EXACT_KEYS
    && (lowered == "env"
        || exists i :: 0 <= i < |SECRET_KEY_TOKENS| && Contains(WithoutUnderscores(lowered), SECRET_KEY_TOKENS[i]))
  }

  // ---- Which keys hide, in terms of their characters ----

  /** c is the lower-case character l, in any case. */
  predicate ReadsAs(c: char, l: char) {
    || c == l
    || ('a' <= l <= 'z' && c as int + 32 == l as int)
    || (l == 'i' && c == '\U{130}') || (l == 'k' && c == '\U{212A}')
  }

  predicate LowerCase(word: string) {
    forall i :: 0 <= i < |word| ==> !('A' <= word[i] <= 'Z') && word[i] != '\U{130}' && word[i] != '\U{212A}'
  }

  /** key is the word, in any case. */
  predicate Spells(key: string, word: string) {
    |key| == |word| && forall i :: 0 <= i < |key| ==> ReadsAs(key[i], word[i])
  }

  /** part is the word, in any case and with underscores anywhere. */
  predicate SpellsLoosely(part: string, word: string) {
    if part == [] then word == []
    else if part[0] == '_' then SpellsLoosely(part[1..], word)
    else word != [] && ReadsAs(part[0], word[0]) && SpellsLoosely(part[1..], word[1..])
  }

  predicate CarvedOut(key: string) {
    || Spells(key, "max_tokens") || Spells(key, "max_history_tokens") || Spells(key, "thinking_budget")
    || Spells(key, "max_per_role") || Spells(key, "external_base_url") || Spells(key, "webuibaseurl")
    || Spells(key, "endpoint")
  }

  predicate IsToken(word: string) {
    || word == "password" || word == "apikey" || word == "secret" || word == "bottoken" || word == "oauth"
    || word == "credential" || word == "token" || word == "url" || word == "dsn"
    || word == "connectionstring" || word == "privatekey"
  }

  lemma LowerReads(c: char, l: char)
    requires !('A' <= l <= 'Z') && l != '\U{130}' && l != '\U{212A}'
    ensures LowerChar(c) == l <==> ReadsAs(c, l)
  {
  }

  lemma LowerSpells(key: string, word: string)
    requires LowerCase(word)
    ensures Lower(key) == word <==> Spells(key, word)
  {
    forall i | 0 <= i < |key| && i < |word| ensures LowerChar(key[i]) == word[i] <==> ReadsAs(key[i], word[i]) {
      LowerReads(key[i], word[i]);
    }
    if Spells(key, word) {
      assert forall i :: 0 <= i < |word| ==> Lower(key)[i] == word[i];
    } else if |key| == |word| {
      var i :| 0 <= i < |key| && !ReadsAs(key[i], word[i]);
      assert Lower(key)[i] != word[i];
    }
  }

  lemma LowerFrom(key: string, i: nat, j: nat)
    requires i <= j <= |key|
    ensures Lower(key)[i..j] == Lower(key[i..j])
  {
  }

  lemma {:induction false} UnderscoreStep(s: string)
    requires s != []
    ensures WithoutUnderscores(s) == (if s[0] == '_' then [] else [s[0]]) + WithoutUnderscores(s[1..])
  {
  }

  lemma {:induction false} LooseSpelling(part: string, word: string)
    requires LowerCase(word) && '_' !in word
    ensures WithoutUnderscores(Lower(part)) == word <==> SpellsLoosely(part, word)
    decreases |part|
  {
    if part != [] {
      LowerFrom(part, 1, |part|);
      assert part[1..|part|] == part[1..] && Lower(part)[1..|part|] == Lower(part)[1..];
      UnderscoreStep(Lower(part));
      if part[0] == '_' {
        LooseSpelling(part[1..], word);
      } else if word != [] {
        LowerReads(part[0], word[0]);
        LooseSpelling(part[1..], word[1..]);
        HeadsAndTails(LowerChar(part[0]), WithoutUnderscores(Lower(part[1..])), word);
      }
    }
  }

  lemma HeadsAndTails(c: char, rest: string, word: string)
    requires word != []
    ensures [c] + rest == word <==> c == word[0] && rest == word[1..]
  {
    assert word == [word[0]] + word[1..];
    assert ([c] + rest)[1..] == rest;
  }

  lemma {:induction false} UnderscoresAppend(a: string, b: string)
    ensures WithoutUnderscores(a + b) == WithoutUnderscores(a) + WithoutUnderscores(b)
  {
    if a == [] {
      assert a + b == b;
    } else {
      assert (a + b)[1..] == a[1..] + b;
      UnderscoresAppend(a[1..], b);
    }
  }

  /** How much of s is left of the p-th character that is no underscore. */
  lemma {:induction false} CutAt(s: string, p: nat) returns (i: nat)
    requires p <= |WithoutUnderscores(s)|
    ensures i <= |s| && |WithoutUnderscores(s[..i])| == p
  {
    if p == 0 {
      i := 0;
    } else {
      UnderscoreStep(s);
      var k := CutAt(s[1..], if s[0] == '_' then p else p - 1);
      i := k + 1;
      assert s[..i] == [s[0]] + s[1..][..k];
      UnderscoresAppend([s[0]], s[1..][..k]);
      assert [s[0]][1..] == [];
    }
  }

  lemma PrefixOf(a: string, b: string, whole: string)
    requires a + b == whole
    ensures |a| <= |whole| && whole[..|a|] == a && whole[|a|..] == b
  {
  }

  /** A word occurs in s without its underscores iff some stretch of s is the word without its underscores. */
  lemma {:induction false} OccursLoosely(s: string, word: string)
    ensures Contains(WithoutUnderscores(s), word) <==>
            exists i, j :: 0 <= i <= j <= |s| && WithoutUnderscores(s[i..j]) == word
  {
    if Contains(WithoutUnderscores(s), word) {
      var p: nat :| p <= |WithoutUnderscores(s)| && OccursAt(WithoutUnderscores(s), word, p);
      var i, j := Stretch(s, word, p);
    }
    forall i, j | 0 <= i <= j <= |s| && WithoutUnderscores(s[i..j]) == word ensures Contains(WithoutUnderscores(s), word) {
      StretchOccurs(s, i, j);
    }
  }

  lemma Stretch(s: string, word: string, p: nat) returns (i: nat, j: nat)
    requires OccursAt(WithoutUnderscores(s), word, p)
    ensures i <= j <= |s| && WithoutUnderscores(s[i..j]) == word
  {
    var w := WithoutUnderscores(s);
    i := CutAt(s, p);
    assert s == s[..i] + s[i..];
    UnderscoresAppend(s[..i], s[i..]);
    PrefixOf(WithoutUnderscores(s[..i]), WithoutUnderscores(s[i..]), w);
    var k := Front(s[i..], word);
    j := i + k;
    assert s[i..j] == s[i..][..k];
    assert w[p..][..|word|] == w[p..p + |word|];
  }

  lemma Front(s: string, word: string) returns (k: nat)
    requires |word| <= |WithoutUnderscores(s)|
    ensures k <= |s| && WithoutUnderscores(s[..k]) == WithoutUnderscores(s)[..|word|]
  {
    k := CutAt(s, |word|);
    assert s == s[..k] + s[k..];
    UnderscoresAppend(s[..k], s[k..]);
    PrefixOf(WithoutUnderscores(s[..k]), WithoutUnderscores(s[k..]), WithoutUnderscores(s));
  }

  lemma {:induction false} StretchOccurs(s: string, i: nat, j: nat)
    requires i <= j <= |s|
    ensures Contains(WithoutUnderscores(s), WithoutUnderscores(s[i..j]))
  {
    var a, b, c := WithoutUnderscores(s[..i]), WithoutUnderscores(s[i..j]), WithoutUnderscores(s[j..]);
    InThree(s, i, j);
    UnderscoresAppend(s[..i] + s[i..j], s[j..]);
    UnderscoresAppend(s[..i], s[i..j]);
    OccursBetween(a, b, c);
    assert OccursAt(a + b + c, b, |a|);
  }

  lemma InThree(s: string, i: nat, j: nat)
    requires i <= j <= |s|
    ensures s == s[..i] + s[i..j] + s[j..]
  {
    assert s[..j] == s[..i] + s[i..j];
    assert s == s[..j] + s[j..];
  }

  lemma OccursBetween(a: string, b: string, c: string)
    ensures OccursAt(a + b + c, b, |a|)
  {
    assert (a + b + c)[|a|..|a| + |b|] == b;
  }

  lemma TokensListed(word: string)
    ensures IsToken(word) <==> exists i :: 0 <= i < |SECRET_KEY_TOKENS| && SECRET_KEY_TOKENS[i] == word
  {
    if IsToken(word) {
      var i := if word == "password" then 0 else if word == "apikey" then 1 else if word == "secret" then 2
               else if word == "bottoken" then 3 else if word == "oauth" then 4 else if word == "credential" then 5
               else if word == "token" then 6 else if word == "url" then 7 else if word == "dsn" then 8
               else if word == "connectionstring" then 9 else 10;
      assert SECRET_KEY_TOKENS[i] == word;
    }
  }

  predicate Plain(word: string) {
    forall i :: 0 <= i < |word| ==> 'a' <= word[i] <= 'z'
  }

  lemma LongTokensPlain()
    ensures Plain("credential") && Plain("connectionstring") && Plain("privatekey")
  {
  }

  lemma ShortTokensPlain()
    ensures Plain("password") && Plain("apikey") && Plain("secret") && Plain("bottoken") && Plain("oauth")
    ensures Plain("token") && Plain("url") && Plain("dsn")
  {
  }

  lemma TokensAreWords(word: string)
    requires IsToken(word)
    ensures LowerCase(word) && '_' !in word
  {
    LongTokensPlain();
    ShortTokensPlain();
    assert Plain(word);
  }

  /** Somewhere in the key a token is spelled. */
  ghost predicate SpellsToken(key: string) {
    exists i, j, word :: 0 <= i <= j <= |key| && IsToken(word) && SpellsLoosely(key[i..j], word)
  }

  lemma {:induction false} TokenInKey(key: string, word: string)
    requires IsToken(word)
    ensures Contains(WithoutUnderscores(Lower(key)), word) <==>
            exists i, j :: 0 <= i <= j <= |key| && SpellsLoosely(key[i..j], word)
  {
    TokensAreWords(word);
    OccursLoosely(Lower(key), word);
    forall i, j | 0 <= i <= j <= |key| ensures WithoutUnderscores(Lower(key)[i..j]) == word <==> SpellsLoosely(key[i..j], word) {
      LowerFrom(key, i, j);
      LooseSpelling(key[i..j], word);
    }
  }

  lemma SnakeExemptAreLower()
    ensures LowerCase("max_tokens") && LowerCase("max_history_tokens") && LowerCase("max_per_role")
  {
  }

  lemma OtherExemptAreLower()
    ensures LowerCase("thinking_budget") && LowerCase("webuibaseurl") && LowerCase("endpoint")
  {
  }

  lemma UrlExemptIsLower()
    ensures LowerCase("external_base_url")
  {
  }

  lemma ExemptListed(word: string)
    ensures word in NON_SECRET_EXACT_KEYS <==>
              || word == "max_tokens" || word == "max_history_tokens" || word == "thinking_budget"
              || word == "max_per_role" || word == "external_base_url" || word == "webuibaseurl" || word == "endpoint"
  {
  }

  lemma CarveOuts(key: string)
    ensures Lower(key) in NON_SECRET_EXACT_KEYS <==> CarvedOut(key)
  {
    SnakeExemptAreLower();
    OtherExemptAreLower();
    UrlExemptIsLower();
    ExemptListed(Lower(key));
    LowerSpells(key, "max_tokens");
    LowerSpells(key, "max_history_tokens");
    LowerSpells(key, "thinking_budget");
    LowerSpells(key, "max_per_role");
    LowerSpells(key, "external_base_url");
    LowerSpells(key, "webuibaseurl");
    LowerSpells(key, "endpoint");
  }

  lemma SecretIff(key: string)
    ensures (exists i :: 0 <= i < |SECRET_KEY_TOKENS| && Contains(WithoutUnderscores(Lower(key)), SECRET_KEY_TOKENS[i]))
       <==> SpellsToken(key)
  {
    var w := WithoutUnderscores(Lower(key));
    forall i | 0 <= i < |SECRET_KEY_TOKENS| && Contains(w, SECRET_KEY_TOKENS[i]) ensures SpellsToken(key) {
      TokensListed(SECRET_KEY_TOKENS[i]);
      TokenInKey(key, SECRET_KEY_TOKENS[i]);
    }
    if SpellsToken(key) {
      var i, j, word :| 0 <= i <= j <= |key| && IsToken(word) && SpellsLoosely(key[i..j], word);
      TokensListed(word);
      TokenInKey(key, word);
    }
  }

  /**
   A key hides what is below it exactly if it is none of the seven exempt keys, and either is "env" or
   contains one of the eleven tokens, letters being taken in any case and, for tokens, underscores dropped.
   */
  lemma HidesIff(key: string)
    ensures Hides(key) <==> !CarvedOut(key) && (Spells(key, "env") || SpellsToken(key))
  {
    CarveOuts(key);
    LowerSpells(key, "env");
    SecretIff(key);
  }

  /** Two keys that differ in the case of ASCII letters only. */
  predicate SameButCase(a: string, b: string) {
    |a| == |b| && forall i :: 0 <= i < |a| ==>
      || a[i] == b[i]
      || ('a' <= a[i] <= 'z' && a[i] as int == b[i] as int + 32)
      || ('a' <= b[i] <= 'z' && b[i] as int == a[i] as int + 32)
  }

  lemma CaseDoesNotMatter(a: string, b: string)
    requires SameButCase(a, b)
    ensures Hides(a) == Hides(b)
  {
    assert Lower(a) == Lower(b);
  }

  // ---- What the two walks compute ----

  function RedactAll(v: Json): Json {
    match v
    case Str(s) => if s == "" then v else Str(PLACEHOLDER)
    case Arr(items) => Arr(seq(|items|, i requires 0 <= i < |items| => RedactAll(items[i])))
    case Obj(fields) => Obj(map k | k in fields :: RedactAll(fields[k]))
    case _ => v
  }

  function Redact(v: Json): Json {
    match v
    case Arr(items) => Arr(seq(|items|, i requires 0 <= i < |items| => Redact(items[i])))
    case Obj(fields) => Obj(map k | k in fields :: if Hides(k) then RedactAll(fields[k]) else Redact(fields[k]))
    case _ => v
  }

  method RedactScalar(v: Json) returns (r: Json)
    ensures r == RedactAll(v)
    decreases v
  {
    match v
    case Str(s) =>
      r := if s == "" then v else Str(PLACEHOLDER);
    case Arr(items) =>
      var out := [];
      for i := 0 to |items|
        invariant |out| == i && forall j :: 0 <= j < i ==> out[j] == RedactAll(items[j])
      {
        var x := RedactScalar(items[i]);
        out := out + [x];
      }
      r := Arr(out);
    case Obj(fields) =>
      var out, todo := fields, fields.Keys;
      while todo != {}
        invariant todo <= fields.Keys && out.Keys == fields.Keys
        invariant forall k :: k in fields ==> out[k] == if k in todo then fields[k] else RedactAll(fields[k])
        decreases todo
      {
        var k :| k in todo;
        var x := RedactScalar(fields[k]);
        out, todo := out[k := x], todo - {k};
      }
      r := Obj(out);
      assert out == RedactAll(v).fields;
    case _ => r := v;
  }

  method RedactField(key: string, inner: Json) returns (r: Json)
    ensures r == if Hides(key) then RedactAll(inner) else Redact(inner)
    decreases inner, 1
  {
    var lowered := Lower(key);
    if lowered in NON_SECRET_EXACT_KEYS {
      r := RedactSecrets(inner);
      return;
    }
    if lowered == "env" {
      r := RedactScalar(inner);
      return;
    }
    var secret := IsSecretKey(WithoutUnderscores(lowered));
    if secret {
      r := RedactScalar(inner);
    } else {
      r := RedactSecrets(inner);
    }
  }

  method RedactSecrets(v: Json) returns (r: Json)
    ensures r == Redact(v)
    decreases v, 0
  {
    match v
    case Obj(fields) =>
      var out, todo := fields, fields.Keys;
      while todo != {}
        invariant todo <= fields.Keys && out.Keys == fields.Keys
        invariant forall k :: k in fields ==>
                    out[k] == if k in todo then fields[k] else if Hides(k) then RedactAll(fields[k]) else Redact(fields[k])
        decreases todo
      {
        var k :| k in todo;
        var x := RedactField(k, fields[k]);
        out, todo := out[k := x], todo - {k};
      }
      r := Obj(out);
      assert out == Redact(v).fields;
    case Arr(items) =>
      var out := [];
      for i := 0 to |items|
        invariant |out| == i && forall j :: 0 <= j < i ==> out[j] == Redact(items[j])
      {
        var x := RedactSecrets(items[i]);
        out := out + [x];
      }
      r := Arr(out);
    case _ => r := v;
  }

  // ---- What the output tells about the input ----

  /**
   Two configurations agree: same shape, list lengths, keys and scalars everywhere, except that
   in hidden places one non-empty string is as good as another.
   */
  predicate Agree(v: Json, w: Json, hidden: bool) {
    match v
    case Str(s) => w.Str? && if hidden then (s == "" <==> w.s == "") else s == w.s
    case Arr(items) =>
      w.Arr? && |items| == |w.items| && forall i :: 0 <= i < |items| ==> Agree(items[i], w.items[i], hidden)
    case Obj(fields) =>
      w.Obj? && fields.Keys == w.fields.Keys && forall k :: k in fields ==> Agree(fields[k], w.fields[k], hidden || Hides(k))
    case _ => v == w
  }

  lemma {:induction false} HidesExactlyStrings(v: Json, w: Json)
    ensures RedactAll(v) == RedactAll(w) <==> Agree(v, w, true)
  {
    var rv, rw := RedactAll(v), RedactAll(w);
    if v.Arr? && w.Arr? && |v.items| == |w.items| {
      forall i | 0 <= i < |v.items| ensures rv.items[i] == rw.items[i] <==> Agree(v.items[i], w.items[i], true) {
        HidesExactlyStrings(v.items[i], w.items[i]);
      }
    } else if v.Obj? && w.Obj? && v.fields.Keys == w.fields.Keys {
      forall k | k in v.fields ensures rv.fields[k] == rw.fields[k] <==> Agree(v.fields[k], w.fields[k], true) {
        HidesExactlyStrings(v.fields[k], w.fields[k]);
      }
      assert rv == rw <==> forall k :: k in v.fields ==> rv.fields[k] == rw.fields[k];
    } else if v.Obj? && w.Obj? {
      assert rv.fields.Keys == v.fields.Keys && rw.fields.Keys == w.fields.Keys;
    }
  }

  /** Two configurations look the same redacted if and only if they differ in nothing but hidden non-empty strings. */
  lemma {:induction false} RedactsAlikeIffAgree(v: Json, w: Json)
    ensures Redact(v) == Redact(w) <==> Agree(v, w, false)
  {
    var rv, rw := Redact(v), Redact(w);
    if v.Arr? && w.Arr? && |v.items| == |w.items| {
      forall i | 0 <= i < |v.items| ensures rv.items[i] == rw.items[i] <==> Agree(v.items[i], w.items[i], false) {
        RedactsAlikeIffAgree(v.items[i], w.items[i]);
      }
    } else if v.Obj? && w.Obj? && v.fields.Keys == w.fields.Keys {
      forall k | k in v.fields ensures rv.fields[k] == rw.fields[k] <==> Agree(v.fields[k], w.fields[k], Hides(k)) {
        if Hides(k) { HidesExactlyStrings(v.fields[k], w.fields[k]); } else { RedactsAlikeIffAgree(v.fields[k], w.fields[k]); }
      }
      assert rv == rw <==> forall k :: k in v.fields ==> rv.fields[k] == rw.fields[k];
    } else if v.Obj? && w.Obj? {
      assert rv.fields.Keys == v.fields.Keys && rw.fields.Keys == w.fields.Keys;
    }
  }

  lemma {:induction false} HiddenOutputAgrees(v: Json)
    ensures Agree(v, RedactAll(v), true)
  {
    if v.Arr? {
      forall i | 0 <= i < |v.items| ensures Agree(v.items[i], RedactAll(v.items[i]), true) { HiddenOutputAgrees(v.items[i]); }
    } else if v.Obj? {
      forall k | k in v.fields ensures Agree(v.fields[k], RedactAll(v.fields[k]), true) { HiddenOutputAgrees(v.fields[k]); }
    }
  }

  /** Every string in the value is empty or the placeholder. */
  predicate ShowsNothing(v: Json) {
    match v
    case Str(s) => s == "" || s == "<redacted>"
    case Arr(items) => forall i :: 0 <= i < |items| ==> ShowsNothing(items[i])
    case Obj(fields) => forall k :: k in fields ==> ShowsNothing(fields[k])
    case _ => true
  }

  /** In the value every string below a key that hides is empty or the placeholder. */
  predicate ShowsNoSecret(v: Json) {
    match v
    case Arr(items) => forall i :: 0 <= i < |items| ==> ShowsNoSecret(items[i])
    case Obj(fields) => forall k :: k in fields ==> if Hides(k) then ShowsNothing(fields[k]) else ShowsNoSecret(fields[k])
    case _ => true
  }

  lemma {:induction false} HiddenShowsNothing(v: Json)
    ensures ShowsNothing(RedactAll(v))
  {
    if v.Arr? {
      forall i | 0 <= i < |v.items| ensures ShowsNothing(RedactAll(v.items[i])) { HiddenShowsNothing(v.items[i]); }
    } else if v.Obj? {
      forall k | k in v.fields ensures ShowsNothing(RedactAll(v.fields[k])) { HiddenShowsNothing(v.fields[k]); }
    }
  }

  /** No string below a key that hides is ever shown. */
  lemma {:induction false} OutputShowsNoSecret(v: Json)
    ensures ShowsNoSecret(Redact(v))
  {
    if v.Arr? {
      forall i | 0 <= i < |v.items| ensures ShowsNoSecret(Redact(v.items[i])) { OutputShowsNoSecret(v.items[i]); }
    } else if v.Obj? {
      forall k | k in v.fields
        ensures if Hides(k) then ShowsNothing(RedactAll(v.fields[k])) else ShowsNoSecret(Redact(v.fields[k]))
      {
        if Hides(k) { HiddenShowsNothing(v.fields[k]); } else { OutputShowsNoSecret(v.fields[k]); }
      }
    }
  }

  /** The output keeps the input's shape, list lengths, keys, numbers, booleans, nulls and every visible or empty string. */
  lemma {:induction false} OutputAgreesWithInput(v: Json)
    ensures Agree(v, Redact(v), false)
  {
    if v.Arr? {
      forall i | 0 <= i < |v.items| ensures Agree(v.items[i], Redact(v.items[i]), false) { OutputAgreesWithInput(v.items[i]); }
    } else if v.Obj? {
      forall k | k in v.fields
        ensures Agree(v.fields[k], if Hides(k) then RedactAll(v.fields[k]) else Redact(v.fields[k]), Hides(k))
      {
        if Hides(k) { HiddenOutputAgrees(v.fields[k]); } else { OutputAgreesWithInput(v.fields[k]); }
      }
    }
  }

  lemma {:induction false} RedactIsIdempotent(v: Json)
    ensures Redact(Redact(v)) == Redact(v)
  {
    OutputAgreesWithInput(v);
    RedactsAlikeIffAgree(v, Redact(v));
  }
}
