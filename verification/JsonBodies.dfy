/** The tree walk over a request body that redacts its strings. */
module JsonBodies {
  import opened Options

  datatype Json =
    | Null
    | Bool(flag: bool)
    | Num(num: real)
    | Str(text: string)
    | Arr(items: seq<Json>)
    | Obj(fields: seq<Field>)

  datatype Field = Field(key: string, child: Json)

  /** Redacts every string of a body; keys, numbers and structure stay. */
  ghost function Visit(redact: string -> string, value: Json): Json
  {
    match value
    case Str(text) => Str(redact(text))
    case Arr(items) => Arr(seq(|items|, i requires 0 <= i < |items| => Visit(redact, items[i])))
    case Obj(fields) =>
      Obj(seq(|fields|, i requires 0 <= i < |fields| => Field(fields[i].key, Visit(redact, fields[i].child))))
    case _ => value
  }

  /** The body with every string blanked. */
  ghost function Skeleton(value: Json): Json
  {
    match value
    case Str(_) => Str("")
    case Arr(items) => Arr(seq(|items|, i requires 0 <= i < |items| => Skeleton(items[i])))
    case Obj(fields) =>
      Obj(seq(|fields|, i requires 0 <= i < |fields| => Field(fields[i].key, Skeleton(fields[i].child))))
    case _ => value
  }

  /** s is one of the string values of the body. */
  ghost predicate HasText(value: Json, s: string)
  {
    match value
    case Str(text) => text == s
    case Arr(items) => exists i :: 0 <= i < |items| && HasText(items[i], s)
    case Obj(fields) => exists i :: 0 <= i < |fields| && HasText(fields[i].child, s)
    case _ => false
  }

  /** k is a key of some object in the body. */
  ghost predicate HasKey(value: Json, k: string)
  {
    match value
    case Arr(items) => exists i :: 0 <= i < |items| && HasKey(items[i], k)
    case Obj(fields) => exists i :: 0 <= i < |fields| && (fields[i].key == k || HasKey(fields[i].child, k))
    case _ => false
  }

  /** Redaction keeps the keys as they are, whatever they spell. */
  lemma {:induction false} KeysStay(redact: string -> string, value: Json, k: string)
    ensures HasKey(Visit(redact, value), k) <==> HasKey(value, k)
  {
    match value
    case Arr(items) =>
      forall i | 0 <= i < |items| ensures HasKey(Visit(redact, value).items[i], k) <==> HasKey(items[i], k) {
        KeysStay(redact, items[i], k);
      }
    case Obj(fields) =>
      forall i | 0 <= i < |fields|
        ensures Visit(redact, value).fields[i].key == fields[i].key
        ensures HasKey(Visit(redact, value).fields[i].child, k) <==> HasKey(fields[i].child, k)
      {
        KeysStay(redact, fields[i].child, k);
      }
    case _ =>
  }

  lemma {:induction false} VisitKeepsSkeleton(redact: string -> string, value: Json)
    ensures Skeleton(Visit(redact, value)) == Skeleton(value)
  {
    match value
    case Arr(items) =>
      forall i | 0 <= i < |items| { VisitKeepsSkeleton(redact, items[i]); }
    case Obj(fields) =>
      forall i | 0 <= i < |fields| { VisitKeepsSkeleton(redact, fields[i].child); }
    case _ =>
  }

  /** Every string of the redacted body is the redaction of a string of the body. */
  lemma {:induction false} TextsComeFrom(redact: string -> string, value: Json, s: string) returns (u: string)
    requires HasText(Visit(redact, value), s)
    ensures HasText(value, u) && s == redact(u)
  {
    match value
    case Str(text) =>
      u := text;
    case Arr(items) =>
      var i :| 0 <= i < |items| && HasText(Visit(redact, items[i]), s);
      u := TextsComeFrom(redact, items[i], s);
    case Obj(fields) =>
      var i :| 0 <= i < |fields| && HasText(Visit(redact, fields[i].child), s);
      u := TextsComeFrom(redact, fields[i].child, s);
  }

  /** The redaction of every string of the body is a string of the redacted body. */
  lemma {:induction false} TextsGoTo(redact: string -> string, value: Json, u: string)
    requires HasText(value, u)
    ensures HasText(Visit(redact, value), redact(u))
  {
    match value
    case Str(text) =>
    case Arr(items) =>
      var i :| 0 <= i < |items| && HasText(items[i], u);
      TextsGoTo(redact, items[i], u);
      assert Visit(redact, value).items[i] == Visit(redact, items[i]);
    case Obj(fields) =>
      var i :| 0 <= i < |fields| && HasText(fields[i].child, u);
      TextsGoTo(redact, fields[i].child, u);
      assert Visit(redact, value).fields[i].child == Visit(redact, fields[i].child);
  }

  /** What stands in a value at the end of a path of positions, if the path leads anywhere. */
  ghost function Found(value: Json, path: seq<nat>): Option<Json>
    decreases |path|
  {
    if path == [] then Some(value)
    else if value.Arr? && path[0] < |value.items| then Found(value.items[path[0]], path[1..])
    else if value.Obj? && path[0] < |value.fields| then Found(value.fields[path[0]].child, path[1..])
    else None
  }

  /** The redacted body has at every place what the body has there, redacted: no string changes places. */
  lemma {:induction false} RedactedInPlace(redact: string -> string, value: Json, path: seq<nat>)
    ensures Found(Visit(redact, value), path) ==
            match Found(value, path) case None => None case Some(part) => Some(Visit(redact, part))
    ensures forall text :: Found(value, path) == Some(Str(text)) ==>
              Found(Visit(redact, value), path) == Some(Str(redact(text)))
    decreases |path|
  {
    if path != [] {
      if value.Arr? && path[0] < |value.items| {
        RedactedInPlace(redact, value.items[path[0]], path[1..]);
      } else if value.Obj? && path[0] < |value.fields| {
        RedactedInPlace(redact, value.fields[path[0]].child, path[1..]);
      }
    }
  }
}
