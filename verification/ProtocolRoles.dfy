/** The roles of the worker protocol (`PayloadRole`). */
module ProtocolRoles {
  import opened Basics
  import opened PythonText
  import opened Protocol

  function Value(role: Role): string {
    match role
    case Source => "source"
    case Artifact => "artifact"
    case Text => "text"
    case Result => "result"
    case Image => "image"
  }

  /** `PayloadRole(value)`. */
  function RoleOf(value: string): Option<Role> {
    if value == "source" then Some(Role.Source)
    else if value == "artifact" then Some(Artifact)
    else if value == "text" then Some(Text)
    else if value == "result" then Some(Role.Result)
    else if value == "image" then Some(Image)
    else None
  }

  /** The media type that goes with a role; a source may have any. */
  function MediaType(role: Role): Option<string> {
    match role
    case Source => None
    case Artifact => Some("application/vnd.confer.document-artifact")
    case Text => Some("text/plain; charset=utf-8")
    case Result => Some("application/json")
    case Image => Some("image/png")
  }

  /** `str.isspace`, for a text that is not empty. */
  predicate Blank(s: string) {
    s == [] || (IsSpace(s[0]) && Blank(s[1..]))
  }

  /** `accepts_media_type`. */
  predicate Accepts(role: Role, mediaType: string) {
    !Blank(mediaType) && (role.Source? || Some(mediaType) == MediaType(role))
  }

  lemma {:induction false} BlankIsSpaces(s: string)
    ensures Blank(s) <==> forall k :: 0 <= k < |s| ==> IsSpace(s[k])
  {
    if s != [] {
      BlankIsSpaces(s[1..]);
      assert forall k :: 0 < k < |s| ==> s[k] == s[1..][k - 1];
    }
  }

  /** A source may have any media type with a character that is no white space, every other role its own alone. */
  lemma {:induction false} AcceptsExactly(mediaType: string)
    ensures Accepts(Role.Source, mediaType) <==> exists k :: 0 <= k < |mediaType| && !IsSpace(mediaType[k])
    ensures Accepts(Artifact, mediaType) <==> mediaType == "application/vnd.confer.document-artifact"
    ensures Accepts(Text, mediaType) <==> mediaType == "text/plain; charset=utf-8"
    ensures Accepts(Role.Result, mediaType) <==> mediaType == "application/json"
    ensures Accepts(Image, mediaType) <==> mediaType == "image/png"
  {
    BlankIsSpaces(mediaType);
    var artifact, text := "application/vnd.confer.document-artifact", "text/plain; charset=utf-8";
    var result, image := "application/json", "image/png";
    assert artifact[0] == 'a' && text[0] == 't' && result[0] == 'a' && image[0] == 'i';
    assert !IsSpace('a') && !IsSpace('t') && !IsSpace('i');
  }

  function Roles(): Vocabulary {
    Vocabulary(Value, RoleOf, Accepts)
  }

  lemma {:induction false} RoleOfValue(role: Role)
    ensures RoleOf(Value(role)) == Some(role)
  {
    var values := ["source", "artifact", "text", "result", "image"];
    assert values[0][0] == 's' && values[1][0] == 'a' && values[2][0] == 't';
    assert values[3][0] == 'r' && values[4][0] == 'i';
  }

  /** The five roles have five spellings, so the round trips hold for the vocabulary of the worker. */
  lemma {:induction false} RolesAreConsistent()
    ensures Consistent(Roles())
  {
    forall role ensures Roles().role(Roles().value(role)) == Some(role) {
      RoleOfValue(role);
    }
  }
}
