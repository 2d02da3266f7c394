/** The toast queue behind `useToast`: notifications appended in order and
    dismissed by id. Ids come from `Math.random` and are passed in. */
module Toasts {
  import opened Wrappers
  import opened Seqs

  datatype Variant = Default | Destructive

  datatype Toast = Toast(id: string, title: Option<string>, description: Option<string>, variant: Variant)

  /** `toast`: append one notification; an omitted variant is `Default`. */
  function AddToast(toasts: seq<Toast>, id: string, title: Option<string>,
                    description: Option<string>, variant: Option<Variant>): (r: seq<Toast>)
    ensures |r| == |toasts| + 1 && r[..|toasts|] == toasts
    ensures r[|toasts|].id == id && r[|toasts|].title == title
    ensures r[|toasts|].description == description
    ensures r[|toasts|].variant == variant.GetOr(Default)
  {
    toasts + [Toast(id, title, description, variant.GetOr(Default))]
  }

  predicate HasOtherId(t: Toast, id: string) {
    t.id != id
  }

  /** `removeToast` (and the timed removal at `useToast.ts:20-22`): drop every
      notification carrying `id`. */
  function RemoveToast(toasts: seq<Toast>, id: string): (r: seq<Toast>)
    ensures forall t :: t in r <==> t in toasts && t.id != id
    ensures IsSubsequence(r, toasts)
    ensures (forall t :: t in toasts ==> t.id != id) ==> r == toasts
    ensures forall t :: multiset(r)[t] == if t.id == id then 0 else multiset(toasts)[t]
  {
    FilterCounts(toasts, t => HasOtherId(t, id));
    Filter(toasts, t => HasOtherId(t, id))
  }

  /** Dismissing a notification that was just added with a fresh id
      restores the queue. */
  lemma RemoveUndoesAdd(toasts: seq<Toast>, id: string, title: Option<string>,
                        description: Option<string>, variant: Option<Variant>)
    requires forall t :: t in toasts ==> t.id != id
    ensures RemoveToast(AddToast(toasts, id, title, description, variant), id) == toasts
  {
    var added := Toast(id, title, description, variant.GetOr(Default));
    FilterAppend(toasts, [added], t => HasOtherId(t, id));
    assert Filter([added], t => HasOtherId(t, id)) == [] by {
      FilterCons([added], t => HasOtherId(t, id));
    }
  }

  /** Removing twice is removing once. */
  lemma RemoveIdempotent(toasts: seq<Toast>, id: string)
    ensures RemoveToast(RemoveToast(toasts, id), id) == RemoveToast(toasts, id)
  {
  }

  /** Removing one id leaves the notifications of every other id in place. */
  lemma {:induction false} RemoveKeepsOthers(toasts: seq<Toast>, id: string, other: string)
    requires other != id
    ensures Filter(RemoveToast(toasts, id), t => !HasOtherId(t, other)) ==
            Filter(toasts, t => !HasOtherId(t, other))
    decreases |toasts|
  {
    if |toasts| > 0 {
      FilterCons(toasts, t => HasOtherId(t, id));
      FilterCons(toasts, t => !HasOtherId(t, other));
      RemoveKeepsOthers(toasts[1..], id, other);
      var rest := RemoveToast(toasts[1..], id);
      if toasts[0].id != id {
        FilterCons([toasts[0]] + rest, t => !HasOtherId(t, other));
        assert ([toasts[0]] + rest)[1..] == rest;
      }
    }
  }
}
