/** Quiz authoring: the defaults of `create_quiz`, the partial updates of
    `update_quiz` and `update_quiz_item`, and the item list of a quiz in
    `item_order`, as `get_quiz` and the `game_started` event return it. */
module Catalog {
  import opened Common
  import opened Models
  import opened Ordering

  /** The Quiz row `create_quiz` stores: an absent description is stored as the
      empty text, absent `num_positions`/`layout_style` take 4 and "grid". */
  function CreatedQuiz(id: nat, adminId: nat, title: string, description: Option<string>,
                       numPositions: Option<int>, layoutStyle: Option<string>): (q: Quiz)
    ensures q.id == id && q.adminId == adminId && q.title == title
    ensures q.description == Some(description.GetOr(""))
    ensures q.numPositions == (if numPositions.Some? then numPositions.value else 4)
    ensures q.layoutStyle == (if layoutStyle.Some? then layoutStyle.value else "grid")
  {
    NewQuiz(id, adminId, title, Some(description.GetOr("")), numPositions, layoutStyle)
  }

  /** The fields an `update_quiz` request supplies; `None` means "not in the request". */
  datatype QuizPatch = QuizPatch(
    title: Option<string>,
    description: Option<string>,
    numPositions: Option<int>,
    layoutStyle: Option<string>)

  /** `update_quiz`: each supplied field replaces the stored one, the rest stay. */
  function PatchQuiz(q: Quiz, p: QuizPatch): (r: Quiz)
    ensures r.id == q.id && r.adminId == q.adminId
    ensures r.title == (if p.title.Some? then p.title.value else q.title)
    ensures r.description == (if p.description.Some? then p.description else q.description)
    ensures r.numPositions == (if p.numPositions.Some? then p.numPositions.value else q.numPositions)
    ensures r.layoutStyle == (if p.layoutStyle.Some? then p.layoutStyle.value else q.layoutStyle)
  {
    q.(title := p.title.GetOr(q.title),
       description := if p.description.Some? then p.description else q.description,
       numPositions := p.numPositions.GetOr(q.numPositions),
       layoutStyle := p.layoutStyle.GetOr(q.layoutStyle))
  }

  /** A request that supplies nothing leaves the quiz as it was. */
  lemma EmptyQuizPatch(q: Quiz)
    ensures PatchQuiz(q, QuizPatch(None, None, None, None)) == q
  {
  }

  /** Sending the same update twice has the effect of sending it once. */
  lemma QuizPatchIdempotent(q: Quiz, p: QuizPatch)
    ensures PatchQuiz(PatchQuiz(q, p), p) == PatchQuiz(q, p)
  {
  }

  /** The fields an `update_quiz_item` request supplies; `imageUrl` is where a
      non-empty uploaded file was stored. */
  datatype ItemPatch = ItemPatch(
    text: Option<string>,
    correctPosition: Option<int>,
    itemOrder: Option<int>,
    imageUrl: Option<string>)

  /** `update_quiz_item`: each supplied field replaces the stored one, the rest stay. */
  function PatchItem(item: QuizItem, p: ItemPatch): (r: QuizItem)
    ensures r.id == item.id && r.quizId == item.quizId && r.originalFilename == item.originalFilename
    ensures r.text == (if p.text.Some? then p.text else item.text)
    ensures r.correctPosition == (if p.correctPosition.Some? then p.correctPosition.value else item.correctPosition)
    ensures r.itemOrder == (if p.itemOrder.Some? then p.itemOrder.value else item.itemOrder)
    ensures r.imageUrl == (if p.imageUrl.Some? then p.imageUrl.value else item.imageUrl)
  {
    item.(text := if p.text.Some? then p.text else item.text,
          correctPosition := p.correctPosition.GetOr(item.correctPosition),
          itemOrder := p.itemOrder.GetOr(item.itemOrder),
          imageUrl := p.imageUrl.GetOr(item.imageUrl))
  }

  lemma EmptyItemPatch(item: QuizItem)
    ensures PatchItem(item, ItemPatch(None, None, None, None)) == item
  {
  }

  lemma ItemPatchIdempotent(item: QuizItem, p: ItemPatch)
    ensures PatchItem(PatchItem(item, p), p) == PatchItem(item, p)
  {
  }

  // ---------------------------------------------------------------------------
  // Items of a quiz, in display order

  /** The items of one quiz with id below `hi`, in id (insertion) order. */
  function ItemsOf(items: map<nat, QuizItem>, quizId: nat, hi: nat): (r: seq<QuizItem>)
    requires ItemsKeyedById(items)
    ensures forall i :: 0 <= i < |r| ==>
      r[i].id in items && items[r[i].id] == r[i] && r[i].quizId == quizId && r[i].id < hi
    ensures forall k :: k in items && k < hi && items[k].quizId == quizId ==> items[k] in r
    ensures forall i, j :: 0 <= i < j < |r| ==> r[i].id < r[j].id
  {
    if hi == 0 then []
    else
      var r := ItemsOf(items, quizId, hi - 1);
      if hi - 1 in items && items[hi - 1].quizId == quizId then r + [items[hi - 1]] else r
  }

  /** Sort key of `ORDER BY item_order`. */
  function ItemOrder(item: QuizItem): int { item.itemOrder }

  /** The items of a quiz by ascending `item_order`; equal orders keep insertion order. */
  function OrderedItems(items: map<nat, QuizItem>, quizId: nat, hi: nat): (r: seq<QuizItem>)
    requires ItemsKeyedById(items)
    ensures multiset(r) == multiset(ItemsOf(items, quizId, hi))
    ensures forall i, j :: 0 <= i < j < |r| ==> r[i].itemOrder <= r[j].itemOrder
    ensures forall x :: x in r <==> x.id in items && items[x.id] == x && x.quizId == quizId && x.id < hi
  {
    var s := ItemsOf(items, quizId, hi);
    var r := SortBy(s, ItemOrder);
    assert SortedBy(r, ItemOrder);
    assert forall x :: x in r <==> x in multiset(s);
    r
  }
}
