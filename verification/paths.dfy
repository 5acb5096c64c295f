/** `parsePath`: classify the segments of a resource path. */
module Paths {
  import opened Wrappers
  import opened Types
  import opened Strings
  import opened Delimiters

  /** The literal the third of four segments must be. */
  const RelationshipsSegment: string := "relationships"

  /** The normalised path without its leading separator; None for a path
      that normalises to "" or "/". */
  function PathBody(decoded: string): (body: Option<string>)
    ensures body.None? <==> Collapsed(decoded) == "" || Collapsed(decoded) == [Delim]
    ensures body.Some? ==> body.value != ""
  {
    var p := Collapsed(decoded);
    if p == "" || (|p| == 1 && p[0] == Delim) then None
    else if p[0] == Delim then Some(p[1..])
    else Some(p)
  }

  /** The classification of a path body: one to three segments fill the
      type, the id and the related resource type; four segments need
      `relationships` third and fill the relationship type; more is an
      error. */
  function Classify(body: string): (r: Result<Request, ParseError>)
    ensures r.Success? ==> r.value.query.None?
    ensures r.Success? ==> r.value.relationshipType == "" || r.value.relatedResourceType == ""
    ensures r.Failure? ==> r.error.NotRelationships? || r.error.UnknownPathFormat?
  {
    var parts := SplitAll(body, Delim);
    if |parts| == 1 then Success(Request(Resource(parts[0], ""), "", "", None))
    else if |parts| == 2 then Success(Request(Resource(parts[0], parts[1]), "", "", None))
    else if |parts| == 3 then Success(Request(Resource(parts[0], parts[1]), "", parts[2], None))
    else if |parts| == 4 then
      if parts[2] != RelationshipsSegment then Failure(NotRelationships(RelationshipsSegment, parts[2]))
      else Success(Request(Resource(parts[0], parts[1]), parts[3], "", None))
    else Failure(UnknownPathFormat(body))
  }

  /** A decoded path: empty after normalisation is an error, otherwise its
      body is classified. */
  function PathOf(decoded: string): (r: Result<Request, ParseError>)
    ensures r.Failure? ==> r.error != DecodeFailure
    ensures r == Failure(EmptyPath) <==> PathBody(decoded).None?
  {
    match PathBody(decoded)
    case None => Failure(EmptyPath)
    case Some(body) => Classify(body)
  }

  /** `parsePath`: decode, then classify; a decoding failure is the only
      way to get DecodeFailure. */
  function ParsePath(path: string, unescape: Decoder): (r: Result<Request, ParseError>)
    ensures unescape(path).None? <==> r == Failure(DecodeFailure)
    ensures unescape(path).Some? ==> r == PathOf(unescape(path).value)
  {
    match unescape(path)
    case None => Failure(DecodeFailure)
    case Some(decoded) => PathOf(decoded)
  }

  /** Gluing two texts without a double separator keeps none. */
  lemma NoDoubleDelimConcat(a: string, b: string)
    requires NoDoubleDelim(a) && NoDoubleDelim(b)
    requires a == [] || b == [] || a[|a| - 1] != Delim || b[0] != Delim
    ensures NoDoubleDelim(a + b)
  {
    var s := a + b;
    forall i | 0 <= i < |s| - 1 ensures !(s[i] == Delim && s[i + 1] == Delim) {
      if i + 1 < |a| {
        assert s[i] == a[i] && s[i + 1] == a[i + 1];
      } else if i >= |a| {
        assert s[i] == b[i - |a|] && s[i + 1] == b[i + 1 - |a|];
      }
    }
  }

  /** Segments without separators, every one but the last non-empty. */
  predicate GoodSegments(segs: seq<string>)
  {
    && |segs| >= 1
    && (forall k :: 0 <= k < |segs| ==> Delim !in segs[k])
    && (forall k :: 0 <= k < |segs| - 1 ==> segs[k] != "")
  }

  /** A path written from good segments has no double separator. */
  lemma {:induction false} JoinedPathNormal(segs: seq<string>)
    requires GoodSegments(segs)
    ensures NoDoubleDelim([Delim] + Join(segs, Delim))
  {
    var s0 := segs[0];
    var head := [Delim] + s0;
    assert NoDoubleDelim(head) by {
      forall i | 0 <= i < |head| - 1 ensures !(head[i] == Delim && head[i + 1] == Delim) {
        assert head[i + 1] == s0[i];
      }
    }
    if |segs| > 1 {
      var rest := segs[1..];
      assert GoodSegments(rest) by {
        forall k | 0 <= k < |rest| ensures Delim !in rest[k] { assert rest[k] == segs[k + 1]; }
        forall k | 0 <= k < |rest| - 1 ensures rest[k] != "" { assert rest[k] == segs[k + 1]; }
      }
      JoinedPathNormal(rest);
      assert head[|head| - 1] == s0[|s0| - 1];
      NoDoubleDelimConcat(head, [Delim] + Join(rest, Delim));
      assert [Delim] + Join(segs, Delim) == head + ([Delim] + Join(rest, Delim));
    } else {
      assert [Delim] + Join(segs, Delim) == head;
    }
  }

  /** parsePath reads back the segments a path is written from: the
      request fields for one to four segments, the relationships error for
      four segments with another third one, the format error beyond four.
      The last segment may be empty, as after a trailing separator. */
  lemma PathSegments(segs: seq<string>)
    requires GoodSegments(segs) && segs[0] != ""
    ensures var r := PathOf([Delim] + Join(segs, Delim));
      && (|segs| <= 3 || (|segs| == 4 && segs[2] == RelationshipsSegment) ==>
          && r.Success?
          && r.value.resource.resourceType == segs[0]
          && r.value.resource.id == (if |segs| >= 2 then segs[1] else "")
          && r.value.relatedResourceType == (if |segs| == 3 then segs[2] else "")
          && r.value.relationshipType == (if |segs| == 4 then segs[3] else ""))
      && (|segs| == 4 && segs[2] != RelationshipsSegment ==>
          r == Failure(NotRelationships(RelationshipsSegment, segs[2])))
      && (|segs| >= 5 ==> r == Failure(UnknownPathFormat(Join(segs, Delim))))
  {
    var body := Join(segs, Delim);
    JoinedBody(segs);
    SplitAllJoin(segs, Delim);
    ClassifySegments(body);
  }

  /** A path written from good segments is classified by its joined body. */
  lemma JoinedBody(segs: seq<string>)
    requires GoodSegments(segs) && segs[0] != ""
    ensures PathOf([Delim] + Join(segs, Delim)) == Classify(Join(segs, Delim))
  {
    var body := Join(segs, Delim);
    var p := [Delim] + body;
    JoinedPathNormal(segs);
    CollapsedFixedPoint(p);
    assert body != "" by {
      if |segs| > 1 {
        assert body == segs[0] + [Delim] + Join(segs[1..], Delim);
      }
    }
    assert p[1..] == body;
    assert PathBody(p) == Some(body);
  }

  /** The classification of a body, by the number of its segments. */
  lemma ClassifySegments(body: string)
    ensures var segs := SplitAll(body, Delim);
      var r := Classify(body);
      && (|segs| <= 3 || (|segs| == 4 && segs[2] == RelationshipsSegment) ==>
          && r.Success?
          && r.value.resource.resourceType == segs[0]
          && r.value.resource.id == (if |segs| >= 2 then segs[1] else "")
          && r.value.relatedResourceType == (if |segs| == 3 then segs[2] else "")
          && r.value.relationshipType == (if |segs| == 4 then segs[3] else ""))
      && (|segs| == 4 && segs[2] != RelationshipsSegment ==>
          r == Failure(NotRelationships(RelationshipsSegment, segs[2])))
      && (|segs| >= 5 ==> r == Failure(UnknownPathFormat(body)))
  {
  }

  /** A trailing separator adds an empty segment: "/articles/1/" asks for
      article 1 with an empty related resource type. */
  lemma TrailingSlashExample()
    ensures PathOf("/articles/1/") == Success(Request(Resource("articles", "1"), "", "", None))
  {
    var segs := ["articles", "1", ""];
    assert Join(segs, Delim) == "articles/1/" by {
      assert segs[1..] == ["1", ""] && segs[2..] == [""];
    }
    assert "/articles/1/" == [Delim] + "articles/1/";
    assert GoodSegments(segs) by {
      assert Delim !in segs[0] && Delim !in segs[1] && Delim !in segs[2];
    }
    PathSegments(segs);
  }

  /** Only the normalised path matters. */
  lemma PathNormalised(decoded: string)
    ensures PathOf(Collapsed(decoded)) == PathOf(decoded)
  {
    CollapsedIdempotent(decoded);
    assert PathBody(Collapsed(decoded)) == PathBody(decoded);
  }

  /** A string made of separators collapses to "" or "/". */
  lemma {:induction false} CollapsedSeparators(s: string)
    requires forall k :: 0 <= k < |s| ==> s[k] == Delim
    ensures Collapsed(s) == if s == "" then "" else [Delim]
    decreases |s|
  {
    if |s| > 1 {
      CollapsedSeparators(s[..|s| - 1]);
    }
  }

  /** "", "/" and any run of separators are empty paths. */
  lemma EmptyPaths(s: string)
    requires forall k :: 0 <= k < |s| ==> s[k] == Delim
    ensures PathOf(s) == Failure(EmptyPath)
  {
    CollapsedSeparators(s);
  }

  /** The first piece of a text that does not start with the separator is
      not empty. */
  lemma SplitAllFirst(s: string, sep: char)
    requires s != "" && s[0] != sep
    ensures SplitAll(s, sep)[0] != ""
  {
    if sep in s {
      var i := IndexOf(s, sep);
      assert i > 0;
    }
  }

  /** A successful request always names a resource type. */
  lemma PathHasType(decoded: string)
    ensures PathOf(decoded).Success? ==> PathOf(decoded).value.resource.resourceType != ""
  {
    if PathBody(decoded).Some? {
      var body := PathBody(decoded).value;
      BodyStart(decoded);
      SplitAllFirst(body, Delim);
      ClassifyType(body);
    }
  }

  /** The body never starts with a separator. */
  lemma BodyStart(decoded: string)
    ensures PathBody(decoded).Some? ==> PathBody(decoded).value[0] != Delim
  {
    var p := Collapsed(decoded);
    if PathBody(decoded).Some? && p[0] == Delim {
      CollapsedNoDoubleDelim(decoded);
      assert PathBody(decoded).value[0] == p[1];
    }
  }

  /** The type of a classified request is the first segment. */
  lemma ClassifyType(body: string)
    ensures Classify(body).Success? ==> Classify(body).value.resource.resourceType == SplitAll(body, Delim)[0]
  {
  }

  /** `IsRelatedResourceRequest`. */
  predicate IsRelatedResourceRequest(r: Request)
  {
    r.relatedResourceType != ""
  }

  /** `IsRelationshipRequest` as the source writes it: it tests the related
      resource type, the same field as IsRelatedResourceRequest. */
  predicate IsRelationshipRequest(r: Request)
  {
    r.relatedResourceType != ""
  }

  /** `IsRelationshipRequest` as its name and the path grammar mean it: a
      relationship type is present. */
  predicate IsRelationshipRequestIntended(r: Request)
  {
    r.relationshipType != ""
  }

  /** The predicate as written answers every relationships path
      `/T/I/relationships/R` with false, "/articles/1/relationships/comments"
      among them. */
  lemma RelationshipRequestAsWrittenMisses(resourceType: string, id: string, relation: string)
    requires resourceType != "" && id != "" && relation != ""
    requires Delim !in resourceType && Delim !in id && Delim !in relation
    ensures var r := PathOf([Delim] + Join([resourceType, id, RelationshipsSegment, relation], Delim));
      r.Success? && r.value.relationshipType == relation && !IsRelationshipRequest(r.value)
  {
    var segs := [resourceType, id, RelationshipsSegment, relation];
    assert GoodSegments(segs) by {
      assert Delim !in RelationshipsSegment;
      assert forall k :: 0 <= k < 4 ==> Delim !in segs[k];
    }
    PathSegments(segs);
  }

  /** The predicate as written answers a related-resource path with true. */
  lemma RelationshipRequestAsWrittenAccepts()
    ensures var r := PathOf("/articles/1/author");
      r.Success? && r.value.relationshipType == "" && IsRelationshipRequest(r.value)
  {
    var segs := ["articles", "1", "author"];
    assert Join(segs, Delim) == "articles/1/author" by {
      assert segs[1..] == ["1", "author"] && segs[2..] == ["author"];
    }
    assert "/articles/1/author" == [Delim] + "articles/1/author";
    assert GoodSegments(segs) by {
      assert Delim !in segs[0] && Delim !in segs[1] && Delim !in segs[2];
    }
    PathSegments(segs);
  }

  /** With the intended predicate, a request is a relationships request
      exactly for four segments and a related-resource request exactly for
      a non-empty third of three; never both. */
  lemma RequestKinds(segs: seq<string>)
    requires GoodSegments(segs) && segs[0] != ""
    requires |segs| <= 3 || (|segs| == 4 && segs[2] == RelationshipsSegment && segs[3] != "")
    ensures var r := PathOf([Delim] + Join(segs, Delim));
      && r.Success?
      && (IsRelationshipRequestIntended(r.value) <==> |segs| == 4)
      && (IsRelatedResourceRequest(r.value) <==> |segs| == 3 && segs[2] != "")
      && !(IsRelationshipRequestIntended(r.value) && IsRelatedResourceRequest(r.value))
  {
    PathSegments(segs);
  }
}
