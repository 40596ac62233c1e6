/**
 * The modal state of the book and student lists (`modalState` in
 * BookList.tsx and MemberList.tsx): which dialog is open, if any, and the
 * item it is about. A delete request opens the confirmation dialog only when
 * the delete check allows it, and a confirmation deletes only from that
 * dialog; together they keep every delete behind a successful check.
 */
module Dialog {
  import opened Options

  /** `'add' | 'edit' | 'delete' | 'error'`; `None` is the closed state `null`. */
  datatype Kind = Add | Edit | Delete | Error

  datatype ModalState<T> = ModalState(kind: Option<Kind>, data: Option<T>)

  /** `{ type: null, data: null }`. */
  function Closed<T>(): ModalState<T> {
    ModalState(None, None)
  }

  /** `openAddModal`. */
  function AddOpened<T>(): ModalState<T> {
    ModalState(Some(Add), None)
  }

  /** `openEditModal(item)`. */
  function EditOpened<T>(item: T): ModalState<T> {
    ModalState(Some(Edit), Some(item))
  }

  /** `handleDeleteRequest`: the confirmation dialog when the check allows the delete, the refusal otherwise. */
  function DeleteRequested<T>(item: T, canDelete: bool): (m: ModalState<T>)
    ensures m.data == Some(item)
    ensures m.kind == Some(Delete) <==> canDelete
    ensures m.kind == Some(Error) <==> !canDelete
  {
    ModalState(Some(if canDelete then Delete else Error), Some(item))
  }

  /** The item `confirmDelete` hands to the delete callback: only from an open confirmation dialog with data. */
  function ConfirmTarget<T>(m: ModalState<T>): (target: Option<T>)
    ensures target.Some? <==> m.kind == Some(Delete) && m.data.Some?
    ensures target.Some? ==> target == m.data
  {
    if m.kind == Some(Delete) then m.data else None
  }

  /** A delete request followed by a confirmation deletes the item exactly when the check allowed it. */
  lemma GatedDelete<T>(item: T, canDelete: bool)
    ensures ConfirmTarget(DeleteRequested(item, canDelete)) == if canDelete then Some(item) else None
  {
  }

  /** No dialog but the confirmation dialog leads to a delete: not the closed one, nor add, edit or refusal. */
  lemma OnlyConfirmationDeletes<T>(item: T)
    ensures ConfirmTarget(Closed<T>()).None?
    ensures ConfirmTarget(AddOpened<T>()).None?
    ensures ConfirmTarget(EditOpened(item)).None?
    ensures ConfirmTarget(DeleteRequested(item, false)).None?
  {
  }
}
