/** The data the store starts from (constants.ts). */
module Constants {
  import opened ArrayMethods
  import opened Types

  /** `Object.values(Category)`, in declaration order. */
  const InitialCategories: seq<string> := ["Alimentos", "Bebidas", "Higiene", "Limpeza", Outros]

  const MockMembers: seq<Member> := [Member("1", "Você", "voce@email.com")]

  const MockItems: seq<Item> := [
    Item("1", "Leite Integral", 2, "Alimentos", "Caixa longa vida", false),
    Item("2", "Pão de Forma", 1, "Alimentos", "Integral", false),
    Item("3", "Sabonete", 4, "Higiene", "", true),
    Item("4", "Detergente", 1, "Limpeza", "Maçã", false),
    Item("5", "Refrigerante", 1, "Bebidas", "2L, guaraná", false)
  ]

  const InitialLists: seq<ShoppingList> := [
    ShoppingList("list-1", "Lista da Semana", None, MockItems, MockMembers),
    ShoppingList("list-2", "Churrasco Fim de Semana", None, [
      Item("c1", "Picanha", 2, "Alimentos", "kg", false),
      Item("c2", "Carvão", 1, Outros, "saco grande", false),
      Item("c3", "Cerveja", 12, "Bebidas", "latão", false)
    ], MockMembers)
  ]

  const InitialProducts: seq<Item> := [
    Item("p1", "Leite", 1, "Alimentos", "", false),
    Item("p2", "Pão", 1, "Alimentos", "", false),
    Item("p3", "Café", 1, "Alimentos", "", false),
    Item("p4", "Shampoo", 1, "Higiene", "", false),
    Item("p5", "Sabonete", 1, "Higiene", "", false),
    Item("p6", "Água Sanitária", 1, "Limpeza", "", false)
  ]
}
