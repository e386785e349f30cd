/** `SimpleMultiChainPersistentEntity`: the data stream an entity type is
    stored in. The name given on the `@MultiChainStream` annotation wins when
    it has text; otherwise the class's simple name, lower-cased. The name is
    derived once, when the entity metadata is built. */
module StreamNames {
  import opened Base
  import opened Text

  /** `extractStreamName`, as a function of the annotation's name (`None`
      when the class carries no annotation; aliases already resolved) and
      the class's simple name. */
  function ExtractStreamName(annotation: Option<string>, simpleName: string): (name: string)
    ensures HasText(annotation) ==> name == Trim(annotation.value)
    ensures !HasText(annotation) ==> |name| == |simpleName|
    ensures !HasText(annotation) ==> forall i :: 0 <= i < |name| ==> !IsUpperAscii(name[i])
    ensures !HasText(annotation) ==> forall i :: 0 <= i < |name| ==> LowerChar(simpleName[i]) == name[i]
  {
    if HasText(annotation) then Trim(annotation.value) else LowerAscii(simpleName)
  }

  /** The entity metadata, holding the stream name fixed at construction. */
  datatype PersistentEntity = PersistentEntity(simpleName: string, streamName: string)

  /** The constructor: the stream name is computed here, once. */
  function NewPersistentEntity(annotation: Option<string>, simpleName: string): (e: PersistentEntity)
    ensures e.simpleName == simpleName
    ensures HasText(annotation) ==> e.streamName == Trim(annotation.value)
    ensures !HasText(annotation) ==> e.streamName == LowerAscii(simpleName)
  {
    PersistentEntity(simpleName, ExtractStreamName(annotation, simpleName))
  }

  /** `getStreamName`. */
  function GetStreamName(e: PersistentEntity): string
  {
    e.streamName
  }

  /** `getStreamName` on built metadata: an annotation name with text comes
      back trimmed, so trimming it again changes nothing; otherwise it is the
      simple name with A-Z lowered and every other character kept. */
  lemma StreamNameOfEntity(annotation: Option<string>, simpleName: string)
    ensures var name := GetStreamName(NewPersistentEntity(annotation, simpleName));
            && (HasText(annotation) ==> Trim(name) == name && |name| <= |annotation.value|)
            && (!HasText(annotation) ==>
                  && |name| == |simpleName|
                  && forall i :: 0 <= i < |name| ==> name[i] == LowerChar(simpleName[i]) && !IsUpperAscii(name[i]))
  {
    if HasText(annotation) {
      TrimIdempotent(annotation.value);
    }
  }

  /** An annotation without a name, or with a blank one, falls back to the
      lower-cased simple name, exactly as no annotation does. */
  lemma BlankAnnotationFallsBack(annotation: Option<string>, simpleName: string)
    requires annotation.None? || !HasText(annotation)
    ensures GetStreamName(NewPersistentEntity(annotation, simpleName))
            == GetStreamName(NewPersistentEntity(None, simpleName))
            == LowerAscii(simpleName)
  {}

  /** A fallback name contains no upper-case ASCII letter, and lower-casing
      it again changes nothing. */
  lemma FallbackIsLowerCase(simpleName: string)
    ensures var name := GetStreamName(NewPersistentEntity(None, simpleName));
            && (forall i :: 0 <= i < |name| ==> !IsUpperAscii(name[i]))
            && LowerAscii(name) == name
  {}

  /** Examples in the style of the entity tests: `Beta` without a name
      maps to "beta"; a name with surrounding spaces is trimmed. */
  lemma StreamNameExamples()
    ensures ExtractStreamName(Some(""), "Beta") == "beta"
    ensures ExtractStreamName(Some(" gamma "), "Gamma") == "gamma"
  {
    assert !IsWhitespace(" gamma "[1]);
    assert " gamma "[..6] == " gamma";
    assert TrimStart(" gamma ") == 1 && TrimEnd(" gamma ", 1) == 6;
  }
}
