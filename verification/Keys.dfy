/** Client keys and backend keys: validation, the backend prefix, and `object_store` paths. */
module Keys {
  import opened Text
  import opened Types

  predicate DegenerateSegment(seg: string) {
    seg == "" || seg == "." || seg == ".."
  }

  predicate IsControl(c: char) {
    c < ' ' || c == '\U{7F}'
  }

  /** `validate_key`: the empty key stands for a bucket-level operation. */
  predicate ValidKey(key: string) {
    key == "" || (CleanPath(key) && forall c :: c in key ==> !IsControl(c))
  }

  /** No empty, `.` or `..` segment; in particular no leading or trailing slash. */
  predicate CleanPath(key: string) {
    forall seg :: seg in Split(key, "/") ==> !DegenerateSegment(seg)
  }

  /** The backend prefix without trailing slashes; absent is the same as empty. */
  function TrimmedPrefix(config: BucketConfig): string {
    if config.backendPrefix.None? then "" else TrimEnd(config.backendPrefix.value, '/')
  }

  /** What stands before every key of this bucket: the trimmed prefix and a slash, or nothing. */
  function KeyPrefix(config: BucketConfig): string {
    var p := TrimmedPrefix(config);
    if p == "" then "" else p + "/"
  }

  function ApplyBackendPrefix(config: BucketConfig, key: string): string {
    match config.backendPrefix
    case Some(prefix) =>
      var p := TrimEnd(prefix, '/');
      if p == "" then key else p + "/" + key
    case None => key
  }

  function StripBackendPrefix(config: BucketConfig, key: string): string {
    match config.backendPrefix
    case Some(prefix) =>
      var p := TrimEnd(prefix, '/');
      if p == "" then key
      else
        (match StripPrefix(key, p)
         case None => key
         case Some(rest) =>
           match StripPrefix(rest, "/")
           case None => key
           case Some(k) => k)
    case None => key
  }

  lemma {:induction false} ApplyIsKeyPrefix(config: BucketConfig, key: string)
    ensures ApplyBackendPrefix(config, key) == KeyPrefix(config) + key
  {
    assert "" + key == key;
  }

  /** Stripping undoes prefixing, so the map into the backend's key space is injective. */
  lemma {:induction false} StripUndoesApply(config: BucketConfig, key: string)
    ensures StripBackendPrefix(config, ApplyBackendPrefix(config, key)) == key
  {
    if config.backendPrefix.Some? {
      var p := TrimEnd(config.backendPrefix.value, '/');
      if p != "" {
        var full := p + "/" + key;
        assert full[|p|..] == "/" + key;
        assert ("/" + key)[1..] == key;
        assert p <= full;
      }
    }
  }

  lemma {:induction false} ApplyInjective(config: BucketConfig, k1: string, k2: string)
    requires ApplyBackendPrefix(config, k1) == ApplyBackendPrefix(config, k2)
    ensures k1 == k2
  {
    StripUndoesApply(config, k1);
    StripUndoesApply(config, k2);
  }

  /** A backend key without the prefix, slash included, is left as it is. */
  lemma {:induction false} StripLeavesOthers(config: BucketConfig, prefix: string, key: string)
    requires config.backendPrefix == Some(prefix) && !(TrimEnd(prefix, '/') + "/" <= key)
    ensures StripBackendPrefix(config, key) == key
  {
    SlashBehind(TrimEnd(prefix, '/'), key);
  }

  lemma SlashBehind(p: string, key: string)
    ensures p <= key && "/" <= key[|p|..] ==> p + "/" <= key
  {
  }

  // ---- Segments of composed paths.

  lemma {:induction false} SplitConcat(a: string, c: char, b: string)
    ensures Split(a + [c] + b, [c]) == Split(a, [c]) + Split(b, [c])
    decreases |a|
  {
    var r := Find(a, [c]);
    if r.None? {
      FindChar(a, c);
      FreeOfChar(a, c);
      SplitHead(a, [c], b);
      SplitSingle(a, [c]);
    } else {
      var i := r.value;
      SplitAtFirst(a, c, i);
      SplitConcat(a[i + 1..], c, b);
      HeadBeforeFirst(a, c, i);
      SplitConcatStep(a[..i], [c], a[i + 1..], b, Split(b, [c]));
      assert a[..i] + [c] + a[i + 1..] == a;
    }
  }

  lemma {:induction false} SplitConcatStep(head: string, sep: string, tail: string, b: string, behind: seq<string>)
    requires sep != "" && FreeOf(head, sep)
    requires Split(tail + sep + b, sep) == Split(tail, sep) + behind
    ensures Split((head + sep + tail) + sep + b, sep) == Split(head + sep + tail, sep) + behind
  {
    SplitHead(head, sep, tail);
    SplitHead(head, sep, tail + sep + b);
    assert (head + sep + tail) + sep + b == head + sep + (tail + sep + b);
  }

  lemma {:induction false} SplitAtFirst(a: string, c: char, i: nat)
    requires Find(a, [c]) == Some(i)
    ensures i < |a| && a == a[..i] + [c] + a[i + 1..]
    ensures Split(a, [c]) == [a[..i]] + Split(a[i + 1..], [c])
  {
    FindChar(a, c);
    assert a[i + |[c]|..] == a[i + 1..];
  }

  lemma {:induction false} HeadBeforeFirst(a: string, c: char, i: nat)
    requires Find(a, [c]) == Some(i)
    ensures FreeOf(a[..i], [c])
  {
    FindChar(a, c);
    FreeOfChar(a[..i], c);
  }

  lemma {:induction false} CleanPathConcat(a: string, b: string)
    ensures CleanPath(a + "/" + b) <==> CleanPath(a) && CleanPath(b)
  {
    SplitConcat(a, '/', b);
    var sa, sb := Split(a, "/"), Split(b, "/");
    assert Split(a + "/" + b, "/") == sa + sb;
    assert forall s :: s in sa + sb <==> s in sa || s in sb;
  }

  lemma {:induction false} CleanPathNotEmpty(a: string)
    ensures CleanPath(a) ==> a != "" && a[0] != '/' && a[|a| - 1] != '/'
  {
    SplitSingle("", "/");
    assert "" in Split("", "/");
    if a != "" && a[0] == '/' {
      assert a == "" + "/" + a[1..];
      CleanPathConcat("", a[1..]);
    }
    if a != "" && a[|a| - 1] == '/' {
      assert a == a[..|a| - 1] + "/" + "";
      CleanPathConcat(a[..|a| - 1], "");
    }
  }

  // ---- `object_store::path::Path`.

  /** `Path::parse`: one leading and one trailing slash go, degenerate segments are refused. */
  function ParsePath(raw: string): Option<string> {
    var stripped := StripPrefixOrSelf(raw, "/");
    if stripped == "" then Some("")
    else
      var path := if stripped[|stripped| - 1] == '/' then stripped[..|stripped| - 1] else stripped;
      if CleanPath(path) then Some(path) else None
  }

  lemma {:induction false} ParseCleanPath(path: string)
    requires CleanPath(path)
    ensures ParsePath(path) == Some(path)
    ensures ParsePath(path + "/") == Some(path)
  {
    CleanPathNotEmpty(path);
    assert (path + "/")[0] == path[0];
    assert (path + "/")[..|path|] == path;
  }

  /** A path is parsed from its clean form with a slash before it or not, and behind it or not; nothing else is a path but the root. */
  lemma {:induction false} ParsedPathExactly(raw: string, path: string)
    ensures ParsePath(raw) == Some(path)
            <==> || (path == "" && (raw == "" || raw == "/"))
                 || (CleanPath(path) && (raw == path || raw == "/" + path || raw == path + "/" || raw == "/" + path + "/"))
  {
    if CleanPath(path) {
      ParseCleanPath(path);
      CleanPathNotEmpty(path);
      SlashBefore(path);
      SlashBefore(path + "/");
      assert "/" + path + "/" == "/" + (path + "/");
    }
    if ParsePath(raw) == Some(path) && path != "" {
      var stripped := StripPrefixOrSelf(raw, "/");
      assert stripped == path || stripped == path + "/";
      assert raw == stripped || raw == "/" + stripped;
      assert "/" + path + "/" == "/" + (path + "/");
    }
    if path == "" {
      RootOnly(raw);
    }
  }

  lemma SlashBefore(s: string)
    requires s != "" && s[0] != '/'
    ensures ParsePath("/" + s) == ParsePath(s)
  {
    assert ("/" + s)[1..] == s;
  }

  lemma RootOnly(raw: string)
    ensures ParsePath(raw) == Some("") <==> raw == "" || raw == "/"
    ensures !CleanPath("")
  {
    if CleanPath("") {
      CleanPathNotEmpty("");
    }
    if raw != "" && raw[0] == '/' {
      assert raw == "/" + raw[1..];
    }
  }

  // ---- What a key may be, spelled out.

  /** Segments between single slashes, none of them empty, `.` or `..`. */
  ghost predicate Spelled(key: string, segs: seq<string>) {
    segs != [] && key == Join(segs, "/")
    && forall i :: 0 <= i < |segs| ==> '/' !in segs[i] && segs[i] != "" && segs[i] != "." && segs[i] != ".."
  }

  lemma {:induction false} CleanPathExactly(key: string)
    ensures CleanPath(key) <==> exists segs :: Spelled(key, segs)
  {
    if CleanPath(key) {
      SplitCharParts(key, '/');
      var segs := Split(key, "/");
      forall i | 0 <= i < |segs|
        ensures '/' !in segs[i] && !DegenerateSegment(segs[i])
      {
        assert segs[i] in segs;
      }
      assert Spelled(key, segs);
    }
    if segs :| Spelled(key, segs) {
      forall p | p in segs
        ensures FreeOf(p, "/")
      {
        FreeOfChar(p, '/');
      }
      SplitJoin(segs, "/");
    }
  }

  /** A key is accepted exactly when it is empty, or is made of proper segments without control characters. */
  lemma {:induction false} ValidKeyExactly(key: string)
    ensures ValidKey(key)
            <==> key == ""
                 || ((exists segs :: Spelled(key, segs)) && forall i :: 0 <= i < |key| ==> key[i] >= '\U{20}' && key[i] != '\U{7F}')
  {
    CleanPathExactly(key);
    forall i | 0 <= i < |key|
      ensures key[i] in key
    {
    }
  }
}
