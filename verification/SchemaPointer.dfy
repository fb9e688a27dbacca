/** JSON Pointer fragments as the schema resolver reads them (RFC 6901). */
module SchemaPointer {
  import opened Results
  import opened Text

  datatype Json = Object(fields: map<string, Json>) | Array(items: seq<Json>) | Str(text: string) | Scalar

  // part.replace("~1", "/").replace("~0", "~")
  function Decode(part: string): string {
    Replace(Replace(part, "~1", "/"), "~0", "~")
  }

  // Section 4 of RFC 6901, read once from left to right; a "~" before anything else stands for itself.
  function DecodeOnce(part: string): string {
    if part == "" then ""
    else if "~1" <= part then "/" + DecodeOnce(part[2..])
    else if "~0" <= part then "~" + DecodeOnce(part[2..])
    else [part[0]] + DecodeOnce(part[1..])
  }

  function Escape(token: string): string {
    if token == "" then ""
    else (if token[0] == '~' then "~0" else if token[0] == '/' then "~1" else [token[0]]) + Escape(token[1..])
  }

  function EscapeAll(tokens: seq<string>): (escaped: seq<string>)
    ensures |escaped| == |tokens|
  {
    seq(|tokens|, i requires 0 <= i < |tokens| => Escape(tokens[i]))
  }

  function DecodeAll(parts: seq<string>): (tokens: seq<string>)
    ensures |tokens| == |parts|
  {
    seq(|parts|, i requires 0 <= i < |parts| => Decode(parts[i]))
  }

  // The first pass makes no escape that was not there: "0" follows "~" in its output only where it did before.
  lemma {:induction false} NoNewEscape(part: string)
    requires part != ""
    ensures "~0" <= [part[0]] + Replace(part[1..], "~1", "/") ==> "~0" <= part
  {
    var rest := Replace(part[1..], "~1", "/");
    var first := [part[0]] + rest;
    if "~0" <= first {
      assert first[0] == '~' && first[1] == '0' && rest[0] == '0' && part[1] == '0';
      assert part[..2] == "~0";
    }
  }

  // The two global passes are one left-to-right decoding, on every string.
  lemma {:induction false} TwoPassesAreOne(part: string)
    ensures Decode(part) == DecodeOnce(part)
    decreases |part|
  {
    if part != "" {
      var first := Replace(part, "~1", "/");
      if "~1" <= part {
        TwoPassesAreOne(part[2..]);
        var rest := Replace(part[2..], "~1", "/");
        assert first == ['/'] + rest && first[1..] == rest && first[0] != "~0"[0];
        assert !("~0" <= first);
        assert Replace(first, "~0", "~") == ['/'] + Replace(rest, "~0", "~");
      } else if "~0" <= part {
        TwoPassesAreOne(part[2..]);
        var rest := Replace(part[2..], "~1", "/");
        assert part[1] == '0' && part[1..][1..] == part[2..];
        assert Replace(part[1..], "~1", "/") == ['0'] + rest;
        assert first == ['~'] + (['0'] + rest) && first[2..] == rest && "~0" <= first;
        assert Replace(first, "~0", "~") == "~" + Replace(rest, "~0", "~");
      } else {
        TwoPassesAreOne(part[1..]);
        var rest := Replace(part[1..], "~1", "/");
        NoNewEscape(part);
        assert first == [part[0]] + rest && first[1..] == rest;
        assert Replace(first, "~0", "~") == [part[0]] + Replace(rest, "~0", "~");
      }
    }
  }

  lemma {:induction false} EscapeDecodes(token: string)
    ensures DecodeOnce(Escape(token)) == token
    ensures '/' !in Escape(token)
  {
    if token != "" {
      EscapeDecodes(token[1..]);
      var rest := Escape(token[1..]);
      var escaped := Escape(token);
      if token[0] == '~' {
        assert escaped == "~0" + rest && escaped[2..] == rest && escaped[1] == '0' && escaped[..2] == "~0";
      } else if token[0] == '/' {
        assert escaped == "~1" + rest && escaped[2..] == rest && escaped[..2] == "~1";
      } else {
        assert escaped == [token[0]] + rest && escaped[1..] == rest && escaped[0] == token[0];
      }
      assert token == [token[0]] + token[1..];
    }
  }

  // Escaping tokens, joining them with "/", splitting and decoding gives the tokens back.
  lemma {:induction false} PointerRoundTrip(tokens: seq<string>)
    requires tokens != []
    ensures DecodeAll(Split(Join(EscapeAll(tokens), '/'), '/')) == tokens
  {
    var escaped := EscapeAll(tokens);
    forall i | 0 <= i < |tokens| ensures '/' !in escaped[i] && Decode(escaped[i]) == tokens[i] {
      EscapeDecodes(tokens[i]);
      TwoPassesAreOne(escaped[i]);
    }
    SplitJoin(escaped, '/');
  }

  // ----- schema_resolve -----

  const MAX_REFS := 32

  predicate HasRef(schema: Json) {
    schema.Object? && "$ref" in schema.fields
  }

  // node[part] for each decoded part; only objects can be indexed by a string.
  function Navigate(node: Json, tokens: seq<string>): Option<Json> {
    if tokens == [] then Some(node)
    else if node.Object? && tokens[0] in node.fields then Navigate(node.fields[tokens[0]], tokens[1..])
    else None
  }

  // Where one reference leads; None where the source raises.
  function Target(root: Json, schema: Json): Option<Json>
    requires HasRef(schema)
  {
    var ref := schema.fields["$ref"];
    if !ref.Str? || !("#/" <= ref.text) then None
    else Navigate(root, DecodeAll(Split(ref.text[2..], '/')))
  }

  // A reference to an escaped token list leads where the tokens lead.
  lemma {:induction false} ReferenceNavigates(root: Json, schema: Json, tokens: seq<string>)
    requires tokens != [] && HasRef(schema) && schema.fields["$ref"] == Str("#/" + Join(EscapeAll(tokens), '/'))
    ensures Target(root, schema) == Navigate(root, tokens)
  {
    var pointer := Join(EscapeAll(tokens), '/');
    assert ("#/" + pointer)[2..] == pointer;
    PointerRoundTrip(tokens);
  }

  // n references followed in a row.
  function Follow(root: Json, schema: Json, n: nat): Option<Json> {
    if n == 0 then Some(schema)
    else
      var before := Follow(root, schema, n - 1);
      if before.None? || !HasRef(before.value) then None else Target(root, before.value)
  }

  ghost predicate ResolvesIn(root: Json, schema: Json, n: nat, result: Json) {
    Follow(root, schema, n) == Some(result) && !HasRef(result)
  }

  datatype ResolveError = ExternalReference | Unresolvable | DepthExceeded

  method SchemaResolve(schema: Json, root: Json) returns (r: Result<Json, ResolveError>)
    ensures r.Ok? ==> exists n: nat :: n <= MAX_REFS && ResolvesIn(root, schema, n, r.value)
    ensures r.Err? ==> forall n: nat, x :: n <= MAX_REFS ==> !ResolvesIn(root, schema, n, x)
  {
    var current, seen := schema, 0;
    while HasRef(current)
      invariant seen <= MAX_REFS && Follow(root, schema, seen) == Some(current)
      invariant forall k: nat :: k < seen ==> Follow(root, schema, k).Some? && HasRef(Follow(root, schema, k).value)
      decreases MAX_REFS - seen
    {
      var ref := current.fields["$ref"];
      if !ref.Str? || !("#/" <= ref.text) {
        Stuck(root, schema, seen);
        return Err(ExternalReference);
      }
      var parts := Split(ref.text[2..], '/');
      var node := current;
      node := root;
      assert DecodeAll(parts)[0..] == DecodeAll(parts);
      for i := 0 to |parts|
        invariant Target(root, current) == Navigate(node, DecodeAll(parts)[i..])
      {
        var token := Decode(parts[i]);
        assert DecodeAll(parts)[i..][0] == token && DecodeAll(parts)[i..][1..] == DecodeAll(parts)[i + 1..];
        if !node.Object? || token !in node.fields {
          Stuck(root, schema, seen);
          return Err(Unresolvable);
        }
        node := node.fields[token];
      }
      if seen + 1 > MAX_REFS {
        return Err(DepthExceeded);
      }
      current := node;
      seen := seen + 1;
    }
    assert ResolvesIn(root, schema, seen, current);
    r := Ok(current);
  }

  lemma {:induction false} StaysNone(root: Json, schema: Json, k: nat, n: nat)
    requires Follow(root, schema, k).None? && k <= n
    ensures Follow(root, schema, n).None?
    decreases n
  {
    if k < n { StaysNone(root, schema, k, n - 1); }
  }

  lemma {:induction false} Stuck(root: Json, schema: Json, seen: nat)
    requires Follow(root, schema, seen).Some? && HasRef(Follow(root, schema, seen).value)
    requires Target(root, Follow(root, schema, seen).value).None?
    requires forall k: nat :: k < seen ==> Follow(root, schema, k).Some? && HasRef(Follow(root, schema, k).value)
    ensures forall n: nat, x :: !ResolvesIn(root, schema, n, x)
  {
    forall n: nat | n > seen ensures Follow(root, schema, n).None? {
      StaysNone(root, schema, seen + 1, n);
    }
  }

  lemma {:induction false} PeriodicShift(root: Json, schema: Json, period: nat, n: nat)
    requires Follow(root, schema, period) == Some(schema)
    ensures Follow(root, schema, n + period) == Follow(root, schema, n)
    decreases n
  {
    if n > 0 {
      PeriodicShift(root, schema, period, n - 1);
      hide Target;
      assert n + period - 1 == n - 1 + period;
    }
  }

  lemma {:induction false} Periodic(root: Json, schema: Json, period: nat, n: nat)
    requires period >= 1 && Follow(root, schema, period) == Some(schema)
    ensures Follow(root, schema, n).Some? && HasRef(Follow(root, schema, n).value)
    decreases n
  {
    hide Target;
    PeriodicShift(root, schema, period, n);
    if n == 0 {
      if !HasRef(schema) { NoRefStops(root, schema, period); }
    } else {
      Periodic(root, schema, period, n - 1);
      PeriodicShift(root, schema, period, n - 1);
      if Follow(root, schema, n).None? || !HasRef(Follow(root, schema, n).value) {
        Passes(root, schema, n, n + period);
        if period > 1 { Passes(root, schema, n, n - 1 + period); }
      }
    }
  }

  lemma {:induction false} NoRefStops(root: Json, schema: Json, n: nat)
    requires !HasRef(schema) && n >= 1
    ensures Follow(root, schema, n).None?
  {
    if n > 1 { NoRefStops(root, schema, n - 1); }
  }

  lemma {:induction false} Passes(root: Json, schema: Json, n: nat, m: nat)
    requires Follow(root, schema, n).None? || !HasRef(Follow(root, schema, n).value)
    requires m > n
    ensures Follow(root, schema, m).None?
  {
    StaysNone(root, schema, n + 1, m);
  }

  // References that lead back to where they started never resolve.
  lemma {:induction false} CycleRefused(root: Json, schema: Json, period: nat)
    requires period >= 1 && Follow(root, schema, period) == Some(schema)
    ensures forall n: nat, x :: !ResolvesIn(root, schema, n, x)
  {
    forall n: nat, x ensures !ResolvesIn(root, schema, n, x) { Periodic(root, schema, period, n); }
  }

  // A schema refers elsewhere exactly if it is an object with the key "$ref"; a reference that is not a string, or does
  // not start with "#/", leads nowhere.
  lemma {:induction false} ReferenceExact(root: Json, schema: Json)
    ensures HasRef(schema) <==> exists fields :: schema == Object(fields) && "$ref" in fields
    ensures HasRef(schema) && (forall text :: schema.fields["$ref"] == Str(text) ==> !("#/" <= text)) ==>
              Target(root, schema) == None
  {
    if HasRef(schema) {
      assert schema == Object(schema.fields);
      assert schema.fields["$ref"].Str? ==> schema.fields["$ref"] == Str(schema.fields["$ref"].text);
    }
  }
}
