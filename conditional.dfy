/** The entity-tag preconditions of section 3 of RFC 7232, as `any_match` and `none_match` in
    both versions evaluate them: `If-Match` with the strong comparison, `If-None-Match` with the
    weak one. */
module Conditional {
  import opened Http

  /** Some listed tag compares equal to the entity's tag under `eq`; never when the entity has none. */
  predicate Listed(etag: Option<EntityTag>, tags: seq<EntityTag>, strong: bool) {
    etag.Some? && exists i :: 0 <= i < |tags| && (if strong then StrongEq(tags[i], etag.value) else WeakEq(tags[i], etag.value))
  }

  /** `any_match`: the `If-Match` precondition holds. An absent header and `*` are treated alike,
      since there is always an entity to serve. */
  predicate AnyMatches(etag: Option<EntityTag>, ifMatch: Option<EtagCondition>) {
    match ifMatch
    case None => true
    case Some(Any) => true
    case Some(Items(tags)) => Listed(etag, tags, true)
  }

  /** `none_match`: no `If-None-Match` condition matches the entity. */
  predicate NoneMatches(etag: Option<EntityTag>, ifNoneMatch: Option<EtagCondition>) {
    match ifNoneMatch
    case None => true
    case Some(Any) => false
    case Some(Items(tags)) => !Listed(etag, tags, false)
  }

  /** With no entity tag, a tag list in `If-Match` always fails and one in `If-None-Match`
      always passes; `*` decides the same with or without a tag. */
  lemma NoEtagDecides(ifMatch: Option<EtagCondition>, ifNoneMatch: Option<EtagCondition>)
    ensures AnyMatches(None, ifMatch) <==> !(ifMatch.Some? && ifMatch.value.Items?)
    ensures NoneMatches(None, ifNoneMatch) <==> !(ifNoneMatch == Some(Any))
  {
  }

  /** An entity with a weak tag never satisfies a tag list in `If-Match`. */
  lemma WeakEtagFailsIfMatch(etag: EntityTag, tags: seq<EntityTag>)
    requires etag.weak
    ensures !AnyMatches(Some(etag), Some(Items(tags)))
  {
  }

  /** `If-None-Match` ignores strength: a listed tag with the entity's value matches whether
      either side is weak or strong. */
  lemma IfNoneMatchIgnoresStrength(etag: EntityTag, tags: seq<EntityTag>, i: nat)
    requires i < |tags| && tags[i].tag == etag.tag
    ensures !NoneMatches(Some(etag), Some(Items(tags)))
    ensures !NoneMatches(Some(EntityTag(!etag.weak, etag.tag)), Some(Items(tags)))
  {
  }

  /** A strong match in `If-Match` is also a match in `If-None-Match`. */
  lemma StrongMatchIsWeakMatch(etag: Option<EntityTag>, tags: seq<EntityTag>)
    requires Listed(etag, tags, true)
    ensures Listed(etag, tags, false)
  {
    var i :| 0 <= i < |tags| && StrongEq(tags[i], etag.value);
    StrongEqImpliesWeakEq(tags[i], etag.value);
  }

  /** `any_match`, as the loop over the listed tags that returns at the first strong match. */
  method AnyMatch(etag: Option<EntityTag>, ifMatch: Option<EtagCondition>) returns (matched: bool)
    ensures matched == AnyMatches(etag, ifMatch)
  {
    match ifMatch {
      case None => return true;
      case Some(Any) => return true;
      case Some(Items(items)) =>
        if etag.Some? {
          for i := 0 to |items|
            invariant forall j :: 0 <= j < i ==> !StrongEq(items[j], etag.value)
          {
            if StrongEq(items[i], etag.value) {
              return true;
            }
          }
        }
        return false;
    }
  }

  /** `none_match`, as the loop over the listed tags that returns at the first weak match. */
  method NoneMatch(etag: Option<EntityTag>, ifNoneMatch: Option<EtagCondition>) returns (passes: bool)
    ensures passes == NoneMatches(etag, ifNoneMatch)
  {
    match ifNoneMatch {
      case Some(Any) => return false;
      case Some(Items(items)) =>
        if etag.Some? {
          for i := 0 to |items|
            invariant forall j :: 0 <= j < i ==> !WeakEq(items[j], etag.value)
          {
            if WeakEq(items[i], etag.value) {
              return false;
            }
          }
        }
        return true;
      case None => return true;
    }
  }
}
